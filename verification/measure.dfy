/**
 * `measure_shmem_latency`: the size loop and the iteration loop around
 * `Exchange`, the per-size statistics, the "finished" write and the cleanup,
 * and the codes it returns.
 */
module Measure {
  import opened Ints
  import opened Trace
  import opened Registers
  import opened Stats
  import opened Notify
  import opened Latency

  /** How a run ended, naming the message that stopped it. */
  datatype Outcome =
    | NoMemory            // the local buffer could not be allocated
    | WriteFailed(k: nat) // the block write of message k was short
    | Stalled(k: nat)     // the wait after message k never returns
    | EchoMismatch(k: nat) // the echo of message k had the wrong length
    | Finished

  /** What the caller sees: a return code, or no return at all. */
  datatype Exit = Returned(code: int) | Hangs

  /** The per-size figures the demo prints: the size and both statistics. */
  datatype Report = Report(size: nat, a2r: Stat, r2a: Stat)

  /**
   * The flag on entry to the wait of message `k`: the caller's flag for the
   * first message, and set for every later one, since each wait that returns
   * sets it again.
   */
  function EntryFlag(nkicked0: bool, k: nat): bool
  {
    if k == 0 then nkicked0 else true
  }

  /** Message `k` goes through all three checks. */
  ghost predicate Healthy(env: Env, mask: bv32, nkicked0: bool, k: nat)
    requires k < MESSAGES
  {
    WriteOk(env, k) && Answered(env, mask, EntryFlag(nkicked0, k), k) && EchoOk(env, k)
  }

  /** The first `n` messages all go through. */
  ghost predicate HealthyUpTo(env: Env, mask: bv32, nkicked0: bool, n: nat)
  {
    forall k :: 0 <= k < n && k < MESSAGES ==> Healthy(env, mask, nkicked0, k)
  }

  /** Message `k` is the first to fail, and fails the check `verdict` names. */
  ghost predicate FailedAt(env: Env, mask: bv32, nkicked0: bool, k: nat, verdict: Verdict)
  {
    && k < MESSAGES
    && HealthyUpTo(env, mask, nkicked0, k)
    && match verdict
       case Done => false
       case WriteShort => !WriteOk(env, k)
       case NoReply => WriteOk(env, k) && !Answered(env, mask, EntryFlag(nkicked0, k), k)
       case BadEcho => WriteOk(env, k) && Answered(env, mask, EntryFlag(nkicked0, k), k) && !EchoOk(env, k)
  }

  /** `outcome` is how the environment `env` makes a run end. */
  ghost predicate Explains(env: Env, mask: bv32, nkicked0: bool, outcome: Outcome)
  {
    match outcome
    case NoMemory => !env.allocOk
    case WriteFailed(k) => env.allocOk && FailedAt(env, mask, nkicked0, k, WriteShort)
    case Stalled(k) => env.allocOk && FailedAt(env, mask, nkicked0, k, NoReply)
    case EchoMismatch(k) => env.allocOk && FailedAt(env, mask, nkicked0, k, BadEcho)
    case Finished => env.allocOk && HealthyUpTo(env, mask, nkicked0, MESSAGES)
  }

  /** The first failure is unique, so an environment explains exactly one outcome. */
  lemma {:induction false} ExplainsUnique(env: Env, mask: bv32, nkicked0: bool, o1: Outcome, o2: Outcome)
    requires Explains(env, mask, nkicked0, o1) && Explains(env, mask, nkicked0, o2)
    ensures o1 == o2
  {
    if o1 != NoMemory && o2 != NoMemory {
      var k1 := if o1.Finished? then MESSAGES else o1.k;
      var k2 := if o2.Finished? then MESSAGES else o2.k;
      if k1 != k2 {
        // the earlier of the two failures is healthy by the other's account
        var first := if k1 < k2 then k1 else k2;
        var healthy := Healthy(env, mask, nkicked0, first);
        assert false;
      }
    }
  }

  /** The control-word write that tells the remote the demo has started. */
  const StartWrite: Event := Write32(Shm, SHM_DEMO_CNTRL_OFFSET, DEMO_STATUS_START)

  /** The control-word write that tells the remote the demo has finished. */
  const IdleWrite: Event := Write32(Shm, SHM_DEMO_CNTRL_OFFSET, DEMO_STATUS_IDLE)

  /** What the wait after message `k` does in environment `env`. */
  function EnvWait(env: Env, mask: bv32, nkicked0: bool, k: nat): seq<Event>
  {
    WaitTrace(EntryFlag(nkicked0, k), mask, env.Irqs(k))
  }

  /**
   * The trace after the start write and `n` iterations, `kicks` of which
   * kicked the remote: it opens with the start write, has written the first
   * `n` planned messages, has not freed the buffer, has written the
   * control word only at its start, and is ordered.
   */
  ghost predicate Progress(trace: seq<Event>, mask: bv32, n: nat, kicks: nat)
  {
    && n <= MESSAGES
    && |trace| >= 1
    && trace[0] == StartWrite
    && Messages(trace) == Planned(n)
    && Count(trace, Kick(mask)) == kicks
    && Count(trace, FreeBuffer) == 0
    && ControlOnlyFirst(trace)
    && Ordered(trace, mask)
  }

  /** `t` writes the control word nowhere after its first access. */
  ghost predicate ControlOnlyFirst(t: seq<Event>)
  {
    forall i :: 0 < i < |t| ==> NotControlAt(t, i)
  }

  /** Access `i` of `t` does not write the control word. */
  predicate NotControlAt(t: seq<Event>, i: nat)
    requires 0 < i < |t|
  {
    !ControlWrite(t[i])
  }

  /** One more iteration extends the progress by one message, and by one kick unless its write was short. */
  lemma ProgressRound(trace: seq<Event>, mask: bv32, n: nat, verdict: Verdict, waited: seq<Event>)
    requires Progress(trace, mask, n, n)
    requires n < MESSAGES
    requires verdict != WriteShort ==> WaitTraceOk(waited, mask)
    ensures Progress(trace + RoundTrace(n, mask, verdict, waited), mask, n + 1,
                     if verdict == WriteShort then n else n + 1)
  {
    RoundMessages(n, mask, verdict, waited);
    RoundKicks(n, mask, verdict, waited);
    OrderedRound(trace, n, mask, verdict, waited);
    ProgressAppend(trace, RoundTrace(n, mask, verdict, waited), mask, n, if verdict == WriteShort then 0 else 1);
  }

  /** Appending the accesses of message `n`, which write nothing else and kick `dk` times, keeps the progress. */
  lemma ProgressAppend(trace: seq<Event>, r: seq<Event>, mask: bv32, n: nat, dk: nat)
    requires Progress(trace, mask, n, n)
    requires n < MESSAGES
    requires Messages(r) == [PlannedMessage(n)]
    requires Count(r, Kick(mask)) == dk && Count(r, FreeBuffer) == 0
    requires forall i :: 0 <= i < |r| ==> !ControlWrite(r[i])
    requires Ordered(trace + r, mask)
    ensures Progress(trace + r, mask, n + 1, n + dk)
  {
    ExtendCounts(trace, r, trace + r, Kick(mask), FreeBuffer);
    ExtendQuiet(trace, r, trace + r);
  }

  /** Appending accesses that do not write the control word keeps a run's start and its only control write. */
  lemma ExtendQuiet(trace: seq<Event>, r: seq<Event>, t: seq<Event>)
    requires |trace| >= 1
    requires ControlOnlyFirst(trace)
    requires forall i :: 0 <= i < |r| ==> !ControlWrite(r[i])
    requires t == trace + r
    ensures t[0] == trace[0]
    ensures ControlOnlyFirst(t)
  {
    forall i | 0 < i < |t|
      ensures NotControlAt(t, i)
    {
      if i >= |trace| {
        assert t[i] == r[i - |trace|];
      } else {
        assert NotControlAt(trace, i);
      }
    }
  }

  /**
   * The statistic of the inner loop after `n` iterations: `STAT_INIT`
   * updated with counter readings `base`, `base + 1`, ..., `base + n - 1`.
   */
  function RunningStat(ticks: seq<u32>, base: nat, n: nat): Stat
  {
    if n == 0 then StatInit else UpdateStat(RunningStat(ticks, base, n - 1), Tick(ticks, base + n - 1))
  }

  /** The running statistic is `update_stat` folded over the sample sequence. */
  lemma {:induction false} RunningStatFolds(ticks: seq<u32>, base: nat, n: nat)
    ensures RunningStat(ticks, base, n) == Accumulate(StatInit, Samples(ticks, base, n))
  {
    if n > 0 {
      RunningStatFolds(ticks, base, n - 1);
      assert Samples(ticks, base, n)[..n - 1] == Samples(ticks, base, n - 1);
    }
  }

  /** The summary of size number `j`: its two statistics over its ITERATIONS counter readings. */
  function SizeReport(env: Env, j: nat): Report
    requires j < |Sizes|
  {
    Report(Sizes[j],
           RunningStat(env.a2rTicks, FirstMessage(j), ITERATIONS),
           RunningStat(env.r2aTicks, FirstMessage(j), ITERATIONS))
  }

  /**
   * Each printed report covers exactly ITERATIONS samples, its minimum is at
   * most its maximum, and the printed average is the exact mean in
   * nanoseconds, between the minimum and the maximum.
   */
  lemma SizeReportFacts(env: Env, j: nat)
    requires j < |Sizes|
    ensures SizeReport(env, j).size == PKG_SIZE_MIN * Pow2(j)
    ensures SizeReport(env, j).a2r.cnt == ITERATIONS && SizeReport(env, j).r2a.cnt == ITERATIONS
    ensures SizeReport(env, j).a2r.min <= SizeReport(env, j).a2r.max
    ensures SizeReport(env, j).r2a.min <= SizeReport(env, j).r2a.max
    ensures AverageNs(SizeReport(env, j).a2r)
              == Sum(Samples(env.a2rTicks, FirstMessage(j), ITERATIONS)) * NS_PER_TTC_TICK / ITERATIONS
    ensures AverageNs(SizeReport(env, j).r2a)
              == Sum(Samples(env.r2aTicks, FirstMessage(j), ITERATIONS)) * NS_PER_TTC_TICK / ITERATIONS
    ensures SizeReport(env, j).a2r.min * NS_PER_TTC_TICK <= AverageNs(SizeReport(env, j).a2r)
              <= SizeReport(env, j).a2r.max * NS_PER_TTC_TICK
    ensures SizeReport(env, j).r2a.min * NS_PER_TTC_TICK <= AverageNs(SizeReport(env, j).r2a)
              <= SizeReport(env, j).r2a.max * NS_PER_TTC_TICK
  {
    var a := Samples(env.a2rTicks, FirstMessage(j), ITERATIONS);
    var b := Samples(env.r2aTicks, FirstMessage(j), ITERATIONS);
    SamplesAt(env.a2rTicks, FirstMessage(j), ITERATIONS);
    SamplesAt(env.r2aTicks, FirstMessage(j), ITERATIONS);
    RunningStatFolds(env.a2rTicks, FirstMessage(j), ITERATIONS);
    RunningStatFolds(env.r2aTicks, FirstMessage(j), ITERATIONS);
    AccumulateFromInit(a);
    AccumulateFromInit(b);
    AverageWithinRange(a);
    AverageWithinRange(b);
    SizesArePowers(j);
  }

  /** Size number `j` is `PKG_SIZE_MIN << j`. */
  lemma {:induction false} SizesArePowers(j: nat)
    requires j < |Sizes|
    ensures Sizes[j] == PKG_SIZE_MIN * Pow2(j)
  {
    if j > 0 {
      SizesArePowers(j - 1);
      SizesDouble();
    }
  }

  /** The trace after a failing iteration ends the way that iteration's verdict says. */
  ghost predicate EndsLike(trace: seq<Event>, k: nat, verdict: Verdict)
    requires k < MESSAGES
  {
    match verdict
    case Done => true
    case WriteShort => |trace| >= 2 && trace[|trace| - 2..] == Sent(k)
    case NoReply => |trace| >= 2 && trace[|trace| - 2..] == HangPass
    case BadEcho => |trace| >= 1 && trace[|trace| - 1] == BlockRead(Shm, SHM_BUFF_OFFSET_RX, SizeOf(k))
  }

  /**
   * Message `k` is the first to fail, with `verdict`, and `trace` is the run up
   * to there: the iterations before it, then its own up to where it failed.
   */
  ghost predicate StoppedAt(env: Env, mask: bv32, nkicked0: bool, k: nat, verdict: Verdict, trace: seq<Event>)
  {
    && FailedAt(env, mask, nkicked0, k, verdict)
    && StoppedTrace(trace, mask, k, verdict)
  }

  /**
   * A trace stopped by message `k` with `verdict`: every message up to `k`
   * written, every one but a short last write kicked, and the trace ending
   * the way message `k` failed.
   */
  ghost predicate StoppedTrace(trace: seq<Event>, mask: bv32, k: nat, verdict: Verdict)
  {
    && k < MESSAGES
    && Progress(trace, mask, k + 1, if verdict == WriteShort then k else k + 1)
    && EndsLike(trace, k, verdict)
  }

  /** The wait of the first failing message only makes wait accesses, and ends in `wfi` if it never returns. */
  lemma FailedWait(env: Env, mask: bv32, nkicked0: bool, k: nat, verdict: Verdict)
    requires FailedAt(env, mask, nkicked0, k, verdict)
    ensures WaitTraceOk(EnvWait(env, mask, nkicked0, k), mask)
    ensures verdict == NoReply ==>
              var w := EnvWait(env, mask, nkicked0, k);
              |w| >= 2 && w[|w| - 2..] == HangPass
  {
    var ws := env.Irqs(k);
    WaitTraceEvents(EntryFlag(nkicked0, k), mask, ws);
    if verdict == NoReply {
      WaitTraceHung(mask, ws);
      SuffixOfAppend(Spurious(ws), HangPass, 2);
    }
  }

  /** A failing iteration after `k` that went through leaves a stopped trace. */
  lemma StoppedStep(prev: seq<Event>, mask: bv32, k: nat, verdict: Verdict, waited: seq<Event>)
    requires k < MESSAGES && verdict != Done
    requires Progress(prev, mask, k, k)
    requires verdict != WriteShort ==> WaitTraceOk(waited, mask)
    requires verdict == NoReply ==> |waited| >= 2 && waited[|waited| - 2..] == HangPass
    ensures StoppedTrace(prev + RoundTrace(k, mask, verdict, waited), mask, k, verdict)
  {
    ProgressRound(prev, mask, k, verdict, waited);
    EndsLikeRound(prev, k, mask, verdict, waited, RoundTrace(k, mask, verdict, waited));
  }

  /**
   * The state of the inner loop for size number `j` once `n` messages of the
   * run went out: the messages so far all went through, the flag is set (or
   * still the caller's before the first message), the trace is the start
   * write and those iterations, and the statistics hold the readings of the
   * size's messages so far. The inner loop's methods state it as
   * `SizeInv(..) == true`, which the verifier checks as one fact instead of
   * one goal per conjunct.
   */
  ghost predicate SizeInv(env: Env, mask: bv32, nkicked0: bool, j: nat, n: nat,
                          trace: seq<Event>, nkicked: bool, a2r: Stat, r2a: Stat)
  {
    SizeStats(env, mask, nkicked0, j, n, nkicked, a2r, r2a) && Progress(trace, mask, n, n)
  }

  /** The part of `SizeInv` that is not about the trace. */
  ghost predicate SizeStats(env: Env, mask: bv32, nkicked0: bool, j: nat, n: nat, nkicked: bool, a2r: Stat, r2a: Stat)
  {
    && j < |Sizes|
    && FirstMessage(j) <= n <= FirstMessage(j) + ITERATIONS
    && HealthyUpTo(env, mask, nkicked0, n)
    && nkicked == EntryFlag(nkicked0, n)
    && n <= MESSAGES
    && a2r == RunningStat(env.a2rTicks, FirstMessage(j), n - FirstMessage(j))
    && r2a == RunningStat(env.r2aTicks, FirstMessage(j), n - FirstMessage(j))
  }

  /** An iteration that goes through moves the inner loop on by one message. */
  lemma DoneStep(env: Env, mask: bv32, nkicked0: bool, j: nat, k: nat, nkicked: bool, a2r: Stat, r2a: Stat)
    requires SizeStats(env, mask, nkicked0, j, k, nkicked, a2r, r2a)
    requires k < FirstMessage(j) + ITERATIONS
    requires WriteOk(env, k) && Answered(env, mask, nkicked, k) && EchoOk(env, k)
    ensures SizeStats(env, mask, nkicked0, j, k + 1, true,
                      UpdateStat(a2r, Tick(env.a2rTicks, k)), UpdateStat(r2a, Tick(env.r2aTicks, k)))
  {
    FirstMessageInRun(j);
    StatsStep(env, FirstMessage(j), k, a2r, r2a);
    HealthyExtend(env, mask, nkicked0, k);
  }

  /** An iteration that fails is the first failure, and leaves the trace ending the way it failed. */
  lemma FailStep(env: Env, mask: bv32, nkicked0: bool, j: nat, k: nat,
                 trace: seq<Event>, nkicked: bool, a2r: Stat, r2a: Stat, verdict: Verdict, waited: seq<Event>,
                 events: seq<Event>)
    requires SizeInv(env, mask, nkicked0, j, k, trace, nkicked, a2r, r2a)
    requires k < FirstMessage(j) + ITERATIONS
    requires verdict == WriteShort <==> !WriteOk(env, k)
    requires verdict == NoReply <==> WriteOk(env, k) && !Answered(env, mask, nkicked, k)
    requires verdict == BadEcho <==> WriteOk(env, k) && Answered(env, mask, nkicked, k) && !EchoOk(env, k)
    requires verdict != Done
    requires verdict != WriteShort ==> waited == WaitTrace(nkicked, mask, env.Irqs(k))
    requires events == RoundTrace(k, mask, verdict, waited)
    ensures StoppedAt(env, mask, nkicked0, k, verdict, trace + events)
  {
    FirstMessageInRun(j);
    FailedWait(env, mask, nkicked0, k, verdict);
    StoppedStep(trace, mask, k, verdict, waited);
  }

  /** Appending a failing iteration leaves the trace ending the way the iteration failed. */
  lemma EndsLikeRound(before: seq<Event>, k: nat, mask: bv32, verdict: Verdict, waited: seq<Event>, r: seq<Event>)
    requires k < MESSAGES
    requires verdict != Done
    requires verdict == NoReply ==> |waited| >= 2 && waited[|waited| - 2..] == HangPass
    requires r == RoundTrace(k, mask, verdict, waited)
    ensures EndsLike(before + r, k, verdict)
  {
    match verdict
    case WriteShort =>
      SuffixOfAppend(before, r, 2);
    case NoReply =>
      SuffixOfAppend(Sent(k) + [Kick(mask)], waited, 2);
      SuffixOfAppend(before, r, 2);
    case BadEcho =>
      assert (before + r)[|before + r| - 1] == r[|r| - 1];
  }

  /** One more healthy message extends the healthy prefix. */
  lemma HealthyExtend(env: Env, mask: bv32, nkicked0: bool, n: nat)
    requires n < MESSAGES
    requires HealthyUpTo(env, mask, nkicked0, n)
    requires WriteOk(env, n) && Answered(env, mask, EntryFlag(nkicked0, n), n) && EchoOk(env, n)
    ensures HealthyUpTo(env, mask, nkicked0, n + 1)
  {
    assert Healthy(env, mask, nkicked0, n);
  }

  /** Folding in reading `k` extends the statistics of the readings from `base` up to `k`. */
  lemma SamplesStep(ticks: seq<u32>, base: nat, k: nat, st: Stat)
    requires base <= k
    requires st == RunningStat(ticks, base, k - base)
    ensures UpdateStat(st, Tick(ticks, k)) == RunningStat(ticks, base, k + 1 - base)
  {
  }

  /** `SamplesStep` for both directions of message `k`. */
  lemma StatsStep(env: Env, base: nat, k: nat, a2r: Stat, r2a: Stat)
    requires base <= k
    requires a2r == RunningStat(env.a2rTicks, base, k - base)
    requires r2a == RunningStat(env.r2aTicks, base, k - base)
    ensures UpdateStat(a2r, Tick(env.a2rTicks, k)) == RunningStat(env.a2rTicks, base, k + 1 - base)
    ensures UpdateStat(r2a, Tick(env.r2aTicks, k)) == RunningStat(env.r2aTicks, base, k + 1 - base)
  {
    SamplesStep(env.a2rTicks, base, k, a2r);
    SamplesStep(env.r2aTicks, base, k, r2a);
  }

  /**
   * One iteration of the inner loop for message `k` of size number `j`: the
   * exchange, and if it went through, both counter readings folded into the
   * statistics.
   */
  method Iterate(env: Env, mask: bv32, nkicked0: bool, j: nat, k: nat,
                 trace: seq<Event>, nkicked: bool, a2r: Stat, r2a: Stat)
    returns (trace': seq<Event>, nkicked': bool, a2r': Stat, r2a': Stat, verdict: Verdict)
    requires SizeInv(env, mask, nkicked0, j, k, trace, nkicked, a2r, r2a) == true
    requires k < FirstMessage(j) + ITERATIONS
    ensures verdict == Done ==> SizeInv(env, mask, nkicked0, j, k + 1, trace', nkicked', a2r', r2a') == true
    ensures verdict != Done ==> StoppedAt(env, mask, nkicked0, k, verdict, trace') == true
  {
    var events, nkickedOut, waited;
    events, verdict, nkickedOut, waited := Exchange(env, mask, nkicked, k);
    if verdict != Done {
      FailStep(env, mask, nkicked0, j, k, trace, nkicked, a2r, r2a, verdict, waited, events);
      trace', nkicked', a2r', r2a' := trace + events, nkickedOut, a2r, r2a;
    } else {
      ProgressRound(trace, mask, k, Done, waited);
      trace', nkicked', a2r', r2a' := Record(env, mask, nkicked0, j, k, trace, nkicked, a2r, r2a, trace + events, nkickedOut);
    }
  }

  /**
   * The rest of a successful iteration: the two counter readings of message
   * `k` go into the size's statistics with `update_stat`.
   */
  method Record(env: Env, mask: bv32, nkicked0: bool, j: nat, k: nat,
                trace: seq<Event>, nkicked: bool, a2r: Stat, r2a: Stat, next: seq<Event>, nkickedOut: bool)
    returns (trace': seq<Event>, nkicked': bool, a2r': Stat, r2a': Stat)
    requires SizeInv(env, mask, nkicked0, j, k, trace, nkicked, a2r, r2a) == true
    requires k < FirstMessage(j) + ITERATIONS
    requires WriteOk(env, k) && Answered(env, mask, nkicked, k) && EchoOk(env, k)
    requires Progress(next, mask, k + 1, k + 1)
    requires nkickedOut
    ensures trace' == next
    ensures SizeInv(env, mask, nkicked0, j, k + 1, trace', nkicked', a2r', r2a') == true
  {
    DoneStep(env, mask, nkicked0, j, k, nkicked, a2r, r2a);
    trace', nkicked' := next, nkickedOut;
    a2r' := UpdateStat(a2r, Tick(env.a2rTicks, k));
    r2a' := UpdateStat(r2a, Tick(env.r2aTicks, k));
  }

  /**
   * The inner loop of `measure_shmem_latency` for size number `j`, from
   * message `k0` on: iterations `i = k0 - FirstMessage(j) + 1 .. ITERATIONS`
   * exchange messages `k = FirstMessage(j) + i - 1`, each folding its two
   * counter readings into the size's statistics, until one iteration fails.
   * The loop is written as a recursion on the message number. Returned
   * besides the trace, the flag and the statistics: `Done` and the number of
   * messages sent, or the failing verdict and message.
   */
  method MeasureSize(env: Env, mask: bv32, nkicked0: bool, j: nat, k0: nat,
                     trace0: seq<Event>, nkicked1: bool, a2r0: Stat, r2a0: Stat)
    returns (trace: seq<Event>, nkicked: bool, a2r: Stat, r2a: Stat, verdict: Verdict, k: nat)
    requires SizeInv(env, mask, nkicked0, j, k0, trace0, nkicked1, a2r0, r2a0) == true
    ensures verdict == Done ==>
              k == FirstMessage(j) + ITERATIONS && SizeInv(env, mask, nkicked0, j, k, trace, nkicked, a2r, r2a) == true
    ensures verdict != Done ==>
              k0 <= k < FirstMessage(j) + ITERATIONS && StoppedAt(env, mask, nkicked0, k, verdict, trace) == true
    decreases FirstMessage(j) + ITERATIONS - k0
  {
    if k0 == FirstMessage(j) + ITERATIONS {
      trace, nkicked, a2r, r2a, verdict, k := trace0, nkicked1, a2r0, r2a0, Done, k0;
    } else {
      trace, nkicked, a2r, r2a, verdict := Iterate(env, mask, nkicked0, j, k0, trace0, nkicked1, a2r0, r2a0);
      k := k0;
      if verdict == Done {
        trace, nkicked, a2r, r2a, verdict, k := MeasureSize(env, mask, nkicked0, j, k0 + 1, trace, nkicked, a2r, r2a);
      }
    }
  }

  /** Every report printed so far is the report of its size, and there is at most one per size. */
  ghost predicate ReportsOk(env: Env, reports: seq<Report>)
  {
    && |reports| <= |Sizes|
    && forall j :: 0 <= j < |reports| ==> reports[j] == SizeReport(env, j)
  }

  /**
   * The state of the size loop before size number `j`: the messages of the
   * earlier sizes all went through, and each earlier size was reported.
   */
  ghost predicate RunInv(env: Env, mask: bv32, nkicked0: bool, j: nat,
                         trace: seq<Event>, nkicked: bool, reports: seq<Report>)
  {
    && j <= |Sizes|
    && HealthyUpTo(env, mask, nkicked0, FirstMessage(j))
    && nkicked == EntryFlag(nkicked0, FirstMessage(j))
    && Progress(trace, mask, FirstMessage(j), FirstMessage(j))
    && |reports| == j
    && ReportsOk(env, reports)
  }

  /** A size starts from `STAT_INIT`, which holds no readings. */
  lemma SizeStart(env: Env, mask: bv32, nkicked0: bool, j: nat,
                  trace: seq<Event>, nkicked: bool, reports: seq<Report>)
    requires RunInv(env, mask, nkicked0, j, trace, nkicked, reports)
    requires j < |Sizes|
    ensures SizeInv(env, mask, nkicked0, j, FirstMessage(j), trace, nkicked, StatInit, StatInit)
  {
  }

  /** A size whose ITERATIONS messages all went through is reported with its statistics. */
  lemma SizeEnd(env: Env, mask: bv32, nkicked0: bool, j: nat, k: nat,
                trace: seq<Event>, nkicked: bool, a2r: Stat, r2a: Stat, reports: seq<Report>)
    requires SizeInv(env, mask, nkicked0, j, k, trace, nkicked, a2r, r2a)
    requires k == FirstMessage(j) + ITERATIONS
    requires |reports| == j && ReportsOk(env, reports)
    ensures RunInv(env, mask, nkicked0, j + 1, trace, nkicked, reports + [Report(Sizes[j], a2r, r2a)])
  {
    FirstMessageInRun(j);
  }

  /**
   * One pass of the size loop of `measure_shmem_latency`, for size number
   * `j`: start both statistics from `STAT_INIT`, run the iterations and, if
   * they all went through, report the size.
   */
  method MeasureOneSize(env: Env, mask: bv32, nkicked0: bool, j: nat,
                        trace0: seq<Event>, nkicked1: bool, reports0: seq<Report>)
    returns (trace: seq<Event>, nkicked: bool, reports: seq<Report>, verdict: Verdict, k: nat)
    requires RunInv(env, mask, nkicked0, j, trace0, nkicked1, reports0)
    requires j < |Sizes|
    ensures verdict == Done ==> RunInv(env, mask, nkicked0, j + 1, trace, nkicked, reports)
    ensures verdict != Done ==>
              && FirstMessage(|reports|) <= k < FirstMessage(|reports|) + ITERATIONS
              && |reports| < |Sizes|
              && ReportsOk(env, reports)
              && StoppedAt(env, mask, nkicked0, k, verdict, trace)
  {
    SizeStart(env, mask, nkicked0, j, trace0, nkicked1, reports0);
    var a2r, r2a;
    trace, nkicked, a2r, r2a, verdict, k :=
      MeasureSize(env, mask, nkicked0, j, FirstMessage(j), trace0, nkicked1, StatInit, StatInit);
    if verdict != Done {
      reports := reports0;
    } else {
      SizeEnd(env, mask, nkicked0, j, k, trace, nkicked, a2r, r2a, reports0);
      reports := reports0 + [Report(Sizes[j], a2r, r2a)];
    }
  }

  /**
   * The size loop of `measure_shmem_latency` from size number `j` on, written
   * as a recursion on the size. Returned: the trace, the flag, the reports
   * printed, and `Done`, or the verdict and number of the failing message.
   */
  method MeasureSizes(env: Env, mask: bv32, nkicked0: bool, j: nat,
                      trace0: seq<Event>, nkicked1: bool, reports0: seq<Report>)
    returns (trace: seq<Event>, nkicked: bool, reports: seq<Report>, verdict: Verdict, k: nat)
    requires RunInv(env, mask, nkicked0, j, trace0, nkicked1, reports0)
    ensures verdict == Done ==> RunInv(env, mask, nkicked0, |Sizes|, trace, nkicked, reports)
    ensures verdict != Done ==>
              && FirstMessage(|reports|) <= k < FirstMessage(|reports|) + ITERATIONS
              && |reports| < |Sizes|
              && ReportsOk(env, reports)
              && StoppedAt(env, mask, nkicked0, k, verdict, trace)
    decreases |Sizes| - j
  {
    if j == |Sizes| {
      trace, nkicked, reports, verdict, k := trace0, nkicked1, reports0, Done, MESSAGES;
    } else {
      trace, nkicked, reports, verdict, k := MeasureOneSize(env, mask, nkicked0, j, trace0, nkicked1, reports0);
      if verdict == Done {
        trace, nkicked, reports, verdict, k := MeasureSizes(env, mask, nkicked0, j + 1, trace, nkicked, reports);
      }
    }
  }

  /** Block writes a run made, by how it ended: every message up to the failing one. */
  function MessagesSent(outcome: Outcome): nat
  {
    match outcome
    case NoMemory => 0
    case WriteFailed(k) => k + 1
    case Stalled(k) => k + 1
    case EchoMismatch(k) => k + 1
    case Finished => MESSAGES
  }

  /** Kicks a run gave: one per message written in full, and one more for the finish. */
  function KicksSent(outcome: Outcome): nat
  {
    match outcome
    case NoMemory => 0
    case WriteFailed(k) => k
    case Stalled(k) => k + 1
    case EchoMismatch(k) => k + 1
    case Finished => MESSAGES + 1
  }

  /** The outcome of a run whose message `k` failed with `verdict`. */
  function Stop(verdict: Verdict, k: nat): Outcome
    requires verdict != Done
  {
    match verdict
    case WriteShort => WriteFailed(k)
    case NoReply => Stalled(k)
    case BadEcho => EchoMismatch(k)
  }

  /**
   * The order of a run's side effects: every message is written right after
   * the APU-to-RPU counter is reset, and the remote is kicked only right after
   * a message was written or after the finish write.
   */
  ghost predicate Ordered(t: seq<Event>, mask: bv32)
  {
    && (|t| > 0 ==> MayOpen(t[0], mask))
    && forall i :: 0 < i < |t| ==> Follows(t, i, mask)
  }

  /** Access `e` may open a run: it is neither a message nor a kick. */
  predicate MayOpen(e: Event, mask: bv32)
  {
    !e.BlockWrite? && e != Kick(mask)
  }

  /** Access `i` of `t` may come right after access `i - 1`. */
  predicate Follows(t: seq<Event>, i: nat, mask: bv32)
    requires 0 < i < |t|
  {
    MayFollow(t[i - 1], t[i], mask)
  }

  /** Access `b` may come right after access `a`: a message only after the reset, a kick only after a message or the finish write. */
  predicate MayFollow(a: Event, b: Event, mask: bv32)
  {
    && (b.BlockWrite? ==> a == ResetTimer(TTC_CNT_APU_TO_RPU))
    && (b == Kick(mask) ==> a.BlockWrite? || a == IdleWrite)
  }

  /** Two ordered traces, one after the other, are ordered. */
  lemma OrderedAppend(a: seq<Event>, b: seq<Event>, mask: bv32)
    requires Ordered(a, mask) && Ordered(b, mask)
    ensures Ordered(a + b, mask)
  {
    var t := a + b;
    forall i | 0 < i < |t|
      ensures Follows(t, i, mask)
    {
      if i < |a| {
        assert Follows(a, i, mask);
      } else if i > |a| {
        assert Follows(b, i - |a|, mask);
      }
    }
  }

  /** Every iteration is ordered, whatever its verdict. */
  lemma RoundOrdered(k: nat, mask: bv32, verdict: Verdict, waited: seq<Event>)
    requires k < MESSAGES
    requires verdict != WriteShort ==> WaitTraceOk(waited, mask)
    ensures Ordered(RoundTrace(k, mask, verdict, waited), mask)
  {
    var t := RoundTrace(k, mask, verdict, waited);
    RoundPositions(k, mask, verdict, waited);
    forall i | 0 < i < |t|
      ensures Follows(t, i, mask)
    {
    }
  }

  /** An ordered trace followed by one more iteration is ordered. */
  lemma OrderedRound(prev: seq<Event>, k: nat, mask: bv32, verdict: Verdict, waited: seq<Event>)
    requires k < MESSAGES
    requires Ordered(prev, mask)
    requires verdict != WriteShort ==> WaitTraceOk(waited, mask)
    ensures Ordered(prev + RoundTrace(k, mask, verdict, waited), mask)
  {
    RoundOrdered(k, mask, verdict, waited);
    OrderedAppend(prev, RoundTrace(k, mask, verdict, waited), mask);
  }

  /**
   * What a run that allocated its buffer and ended with `outcome` adds up to:
   * its block writes are exactly the planned messages up to the last one sent;
   * it kicks once per message written in full plus once at the finish; and it
   * frees the buffer once unless it hangs.
   */
  ghost predicate RunCounts(trace: seq<Event>, mask: bv32, outcome: Outcome)
  {
    && outcome != NoMemory
    && MessagesSent(outcome) <= MESSAGES
    && Messages(trace) == Planned(MessagesSent(outcome))
    && Count(trace, Kick(mask)) == KicksSent(outcome)
    && Count(trace, FreeBuffer) == (if outcome.Stalled? then 0 else 1)
  }

  /**
   * How such a run is laid out: it opens with the start write; the free, if
   * any, is its very last access; the only other control-word write is the
   * finish write; it ends with the accesses that decided the outcome; and it
   * is ordered.
   */
  ghost predicate RunShape(trace: seq<Event>, mask: bv32, outcome: Outcome)
  {
    && MessagesSent(outcome) <= MESSAGES
    && |trace| >= 3
    && trace[0] == StartWrite
    && (!outcome.Stalled? ==> trace[|trace| - 1] == FreeBuffer)
    && (forall i :: 1 <= i < |trace| && ControlWrite(trace[i]) ==> outcome == Finished && i == |trace| - 3)
    && Ordered(trace, mask)
    && match outcome
       case NoMemory => false
       case WriteFailed(k) => trace[|trace| - 3..] == Sent(k) + [FreeBuffer]
       case Stalled(_) => trace[|trace| - 2..] == HangPass
       case EchoMismatch(k) => trace[|trace| - 2..] == Received(k) + [FreeBuffer]
       case Finished => trace[|trace| - 3..] == [IdleWrite, Kick(mask), FreeBuffer]
  }

  /** The accesses of a run that allocated its buffer and ended with `outcome`. */
  ghost predicate RunTrace(trace: seq<Event>, mask: bv32, outcome: Outcome)
  {
    RunCounts(trace, mask, outcome) && RunShape(trace, mask, outcome)
  }

  /**
   * The order of a run, access by access: every message directly follows the
   * reset of the APU-to-RPU counter, and every kick directly follows a
   * message, except the finish kick, which directly follows the finish write.
   */
  lemma RunOrder(trace: seq<Event>, mask: bv32, outcome: Outcome)
    requires RunTrace(trace, mask, outcome)
    ensures forall i :: 0 <= i < |trace| && trace[i].BlockWrite? ==>
              i > 0 && trace[i - 1] == ResetTimer(TTC_CNT_APU_TO_RPU)
    ensures forall i :: 0 <= i < |trace| && trace[i] == Kick(mask) ==>
              i > 0 && (trace[i - 1].BlockWrite? || (outcome == Finished && i == |trace| - 2))
  {
    forall i | 0 < i < |trace|
      ensures MayFollow(trace[i - 1], trace[i], mask)
    {
      assert Follows(trace, i, mask);
    }
    forall i | 1 < i < |trace| && trace[i] == Kick(mask) && !trace[i - 1].BlockWrite?
      ensures outcome == Finished && i == |trace| - 2
    {
      assert ControlWrite(trace[i - 1]);
    }
  }

  /** Every kick of a run comes after some message: the remote is never kicked before anything was written. */
  lemma KickAfterSomeMessage(t: seq<Event>, mask: bv32, outcome: Outcome, i: nat)
    requires RunTrace(t, mask, outcome)
    requires i < |t| && t[i] == Kick(mask)
    ensures exists j :: 0 <= j < i && t[j].BlockWrite?
  {
    RunOrder(t, mask, outcome);
    if t[i - 1].BlockWrite? {
      assert t[i - 1].BlockWrite?;
    } else {
      // the finish kick: every planned message was written before the idle write
      MessagesFrom(t);
      var m := Messages(t)[0];
      assert m in t && m.BlockWrite?;
      var j :| 0 <= j < |t| && t[j] == m;
      assert t[|t| - 3..] == [IdleWrite, Kick(mask), FreeBuffer];
      assert t[|t| - 3] == IdleWrite && t[|t| - 1] == FreeBuffer;
      assert j < i;
    }
  }

  /**
   * The trace that kicks the remote, then writes message 0, reads its echo
   * and frees the buffer is no run ending in a bad echo of message 0.
   */
  lemma KickBeforeMessageIsNoRun(mask: bv32)
    ensures !RunTrace([StartWrite, Kick(mask), PlannedMessage(0), BlockRead(Shm, SHM_BUFF_OFFSET_RX, SizeOf(0)), FreeBuffer],
                      mask, EchoMismatch(0))
  {
    var t := [StartWrite, Kick(mask), PlannedMessage(0), BlockRead(Shm, SHM_BUFF_OFFSET_RX, SizeOf(0)), FreeBuffer];
    assert !Follows(t, 1, mask);
  }

  /** The run before the size loop: only the start write. */
  lemma RunStart(env: Env, mask: bv32, nkicked0: bool)
    ensures RunInv(env, mask, nkicked0, 0, [StartWrite], nkicked0, [])
  {
    MessagesNone([StartWrite]);
  }

  /** Appending `tail` to a run adds exactly the tail's messages and the tail's copies of `e`. */
  lemma ExtendCounts(trace: seq<Event>, tail: seq<Event>, t: seq<Event>, e1: Event, e2: Event)
    requires t == trace + tail
    ensures Messages(t) == Messages(trace) + Messages(tail)
    ensures Count(t, e1) == Count(trace, e1) + Count(tail, e1)
    ensures Count(t, e2) == Count(trace, e2) + Count(tail, e2)
  {
    MessagesAppend(trace, tail);
    CountAppend(trace, tail, e1);
    CountAppend(trace, tail, e2);
  }

  /** Appending to a run keeps its first access and its accesses after the first. */
  lemma ExtendShape(trace: seq<Event>, tail: seq<Event>, t: seq<Event>)
    requires |trace| >= 1
    requires ControlOnlyFirst(trace)
    requires t == trace + tail
    ensures |t| == |trace| + |tail| && t[0] == trace[0]
    ensures forall i :: 1 <= i < |trace| ==> !ControlWrite(t[i])
  {
    forall i | 1 <= i < |trace|
      ensures !ControlWrite(t[i])
    {
      assert t[i] == trace[i];
      assert NotControlAt(trace, i);
    }
  }

  /** The finish: the idle write, the last kick and the free, none of them a message. */
  function FinishTail(mask: bv32): seq<Event>
  {
    [IdleWrite, Kick(mask), FreeBuffer]
  }

  lemma FinishTailCounts(mask: bv32)
    ensures Messages(FinishTail(mask)) == []
    ensures Count(FinishTail(mask), Kick(mask)) == 1
    ensures Count(FinishTail(mask), FreeBuffer) == 1
  {
    MessagesNone(FinishTail(mask));
    CountIsMultiset(FinishTail(mask), Kick(mask));
    CountIsMultiset(FinishTail(mask), FreeBuffer);
  }

  /** After all sizes, the finish write, the last kick and the free complete the run. */
  lemma FinishedRun(trace: seq<Event>, mask: bv32, t: seq<Event>)
    requires Progress(trace, mask, MESSAGES, MESSAGES)
    requires t == trace + FinishTail(mask)
    ensures RunTrace(t, mask, Finished)
  {
    FinishedMessages(trace, mask, t);
    FinishedTally(trace, mask, t);
    FinishedShape(trace, mask, t);
  }

  lemma FinishedMessages(trace: seq<Event>, mask: bv32, t: seq<Event>)
    requires Messages(trace) == Planned(MESSAGES)
    requires t == trace + FinishTail(mask)
    ensures Messages(t) == Planned(MESSAGES)
  {
    ExtendCounts(trace, FinishTail(mask), t, Kick(mask), FreeBuffer);
    FinishTailCounts(mask);
  }

  lemma FinishedTally(trace: seq<Event>, mask: bv32, t: seq<Event>)
    requires Count(trace, Kick(mask)) == MESSAGES && Count(trace, FreeBuffer) == 0
    requires t == trace + FinishTail(mask)
    ensures Count(t, Kick(mask)) == MESSAGES + 1
    ensures Count(t, FreeBuffer) == 1
  {
    ExtendCounts(trace, FinishTail(mask), t, Kick(mask), FreeBuffer);
    FinishTailCounts(mask);
  }

  lemma FinishedShape(trace: seq<Event>, mask: bv32, t: seq<Event>)
    requires |trace| >= 1 && trace[0] == StartWrite
    requires ControlOnlyFirst(trace)
    requires Ordered(trace, mask)
    requires t == trace + FinishTail(mask)
    ensures RunShape(t, mask, Finished)
  {
    var tail := FinishTail(mask);
    ExtendShape(trace, tail, t);
    OrderedAppend(trace, tail, mask);
    assert t[|t| - 3..] == tail;
    forall i | 1 <= i < |t| && ControlWrite(t[i])
      ensures i == |t| - 3
    {
      if i >= |trace| {
        assert t[i] == tail[i - |trace|];
      }
    }
  }

  /** A run stopped by a short write or a bad echo frees the buffer and returns. */
  lemma AbortedRun(mask: bv32, k: nat, verdict: Verdict, trace: seq<Event>, t: seq<Event>)
    requires StoppedTrace(trace, mask, k, verdict)
    requires verdict == WriteShort || verdict == BadEcho
    requires t == trace + [FreeBuffer]
    ensures RunTrace(t, mask, Stop(verdict, k))
  {
    AbortedMessages(trace, k, t);
    AbortedTally(trace, mask, if verdict == WriteShort then k else k + 1, t);
    AbortedShape(mask, k, verdict, trace, t);
  }

  lemma AbortedMessages(trace: seq<Event>, k: nat, t: seq<Event>)
    requires k < MESSAGES
    requires Messages(trace) == Planned(k + 1)
    requires t == trace + [FreeBuffer]
    ensures Messages(t) == Planned(k + 1)
  {
    MessagesAppend(trace, [FreeBuffer]);
    MessagesNone([FreeBuffer]);
  }

  lemma AbortedTally(trace: seq<Event>, mask: bv32, kicks: nat, t: seq<Event>)
    requires Count(trace, Kick(mask)) == kicks && Count(trace, FreeBuffer) == 0
    requires t == trace + [FreeBuffer]
    ensures Count(t, Kick(mask)) == kicks
    ensures Count(t, FreeBuffer) == 1
  {
    CountAppend(trace, [FreeBuffer], Kick(mask));
    CountAppend(trace, [FreeBuffer], FreeBuffer);
  }

  lemma AbortedShape(mask: bv32, k: nat, verdict: Verdict, trace: seq<Event>, t: seq<Event>)
    requires StoppedTrace(trace, mask, k, verdict)
    requires verdict == WriteShort || verdict == BadEcho
    requires t == trace + [FreeBuffer]
    ensures RunShape(t, mask, Stop(verdict, k))
  {
    ExtendShape(trace, [FreeBuffer], t);
    OrderedAppend(trace, [FreeBuffer], mask);
    if verdict == WriteShort {
      assert t[|t| - 3..] == trace[|trace| - 2..] + [FreeBuffer];
    } else {
      assert t[|t| - 2..] == [trace[|trace| - 1]] + [FreeBuffer];
    }
  }

  /** A run whose wait never returns stops in `wfi`, without freeing anything. */
  lemma StalledRun(mask: bv32, k: nat, trace: seq<Event>)
    requires StoppedTrace(trace, mask, k, NoReply)
    ensures RunTrace(trace, mask, Stalled(k))
  {
    forall i | 1 <= i < |trace|
      ensures !ControlWrite(trace[i])
    {
      assert NotControlAt(trace, i);
    }
  }

  /** Everything the caller learns from a run that went through all sizes. */
  lemma FinishedOutcome(env: Env, mask: bv32, nkicked0: bool, trace: seq<Event>, nkicked: bool,
                        reports: seq<Report>, t: seq<Event>)
    requires env.allocOk
    requires RunInv(env, mask, nkicked0, |Sizes|, trace, nkicked, reports)
    requires t == trace + FinishTail(mask)
    ensures Explains(env, mask, nkicked0, Finished)
    ensures RunTrace(t, mask, Finished)
    ensures ReportsOk(env, reports)
    ensures |reports| == |Sizes|
  {
    SizesDouble();
    FinishedRun(trace, mask, t);
  }

  /** Everything the caller learns from a run whose message `k` failed with `verdict`. */
  lemma StoppedOutcome(env: Env, mask: bv32, nkicked0: bool, trace: seq<Event>, reports: seq<Report>,
                       verdict: Verdict, k: nat, t: seq<Event>)
    requires env.allocOk && verdict != Done
    requires FirstMessage(|reports|) <= k < FirstMessage(|reports|) + ITERATIONS
    requires |reports| < |Sizes| && ReportsOk(env, reports)
    requires StoppedAt(env, mask, nkicked0, k, verdict, trace)
    requires t == if verdict == NoReply then trace else trace + [FreeBuffer]
    ensures Explains(env, mask, nkicked0, Stop(verdict, k))
    ensures RunTrace(t, mask, Stop(verdict, k))
    ensures ReportsOk(env, reports)
    ensures FirstMessage(|reports|) <= Stop(verdict, k).k < FirstMessage(|reports|) + ITERATIONS
  {
    if verdict == NoReply {
      StalledRun(mask, k, trace);
    } else {
      AbortedRun(mask, k, verdict, trace, t);
    }
  }

  /**
   * The code `measure_shmem_latency` returns as written: -1 when the buffer
   * cannot be allocated, no return when a wait never ends, and 0 for every
   * other ending, because the two failure exits set `ret` to -1 but jump to
   * a label that returns 0.
   */
  function ReturnCode(outcome: Outcome): (r: Exit)
    ensures r == Returned(-1) <==> outcome == NoMemory
    ensures r == Hangs <==> outcome.Stalled?
    ensures r == Returned(0) <==> outcome.WriteFailed? || outcome.EchoMismatch? || outcome == Finished
  {
    match outcome
    case NoMemory => Returned(-1)
    case Stalled(_) => Hangs
    case _ => Returned(0)
  }

  /**
   * The code the function documents, "0 on success, error code if failure":
   * the two failure exits return the -1 they set.
   */
  function IntendedReturnCode(outcome: Outcome): (r: Exit)
  {
    match outcome
    case Finished => Returned(0)
    case Stalled(_) => Hangs
    case _ => Returned(-1)
  }

  /**
   * The intended code tells success from failure: 0 exactly for a finished
   * run; and it differs from the code as written exactly on a short write
   * and on a bad echo.
   */
  lemma IntendedReturnCodeSeparates(outcome: Outcome)
    ensures IntendedReturnCode(outcome) == Returned(0) <==> outcome == Finished
    ensures IntendedReturnCode(outcome) == Returned(-1) <==> !outcome.Finished? && !outcome.Stalled?
    ensures ReturnCode(outcome) != IntendedReturnCode(outcome) <==> outcome.WriteFailed? || outcome.EchoMismatch?
  {
  }

  /** An environment whose first block write reports 0 bytes written. */
  const ShortWriteEnv: Env := Env(true, [0], [], [], [], [])

  /**
   * On that environment the run stops at message 0 with a short write and
   * nothing else, and yet the code as written returns 0, the success code.
   */
  lemma ShortWriteReturnsZero()
    ensures Explains(ShortWriteEnv, IPI_MASK, true, WriteFailed(0))
    ensures forall o :: Explains(ShortWriteEnv, IPI_MASK, true, o) ==> o == WriteFailed(0)
    ensures ReturnCode(WriteFailed(0)) == Returned(0)
    ensures IntendedReturnCode(WriteFailed(0)) == Returned(-1)
  {
    assert !WriteOk(ShortWriteEnv, 0);
    forall o | Explains(ShortWriteEnv, IPI_MASK, true, o)
      ensures o == WriteFailed(0)
    {
      ExplainsUnique(ShortWriteEnv, IPI_MASK, true, o, WriteFailed(0));
    }
  }

  /**
   * `measure_shmem_latency` on a channel with mask `mask` whose flag is
   * `nkicked0` on entry. Returned: what the caller sees, the accesses, the
   * reports printed, and the outcome, which is the one the environment
   * explains. Allocation failure returns -1 having done nothing; a wait that
   * never returns hangs the core; every other ending, failures included,
   * frees the buffer and returns 0.
   */
  method MeasureShmemLatency(env: Env, mask: bv32, nkicked0: bool)
    returns (ret: Exit, trace: seq<Event>, reports: seq<Report>, outcome: Outcome)
    ensures Explains(env, mask, nkicked0, outcome)
    ensures ret == ReturnCode(outcome)
    ensures ret == Returned(-1) <==> outcome == NoMemory
    ensures ret == Hangs <==> outcome.Stalled?
    ensures ret == Returned(0) <==> outcome.WriteFailed? || outcome.EchoMismatch? || outcome == Finished
    ensures outcome == NoMemory ==> trace == [] && reports == []
    ensures outcome != NoMemory ==> RunTrace(trace, mask, outcome)
    ensures ReportsOk(env, reports)
    ensures outcome == Finished ==> |reports| == |Sizes|
    ensures outcome.WriteFailed? || outcome.Stalled? || outcome.EchoMismatch? ==>
              FirstMessage(|reports|) <= outcome.k < FirstMessage(|reports|) + ITERATIONS
  {
    if !env.allocOk {
      ret, trace, reports, outcome := Returned(-1), [], [], NoMemory;
      return;
    }
    RunStart(env, mask, nkicked0);
    var nkicked, verdict, k;
    trace, nkicked, reports, verdict, k := MeasureSizes(env, mask, nkicked0, 0, [StartWrite], nkicked0, []);
    var stopped := trace;
    if verdict == Done {
      trace := trace + FinishTail(mask);
      FinishedOutcome(env, mask, nkicked0, stopped, nkicked, reports, trace);
      ret, outcome := Returned(0), Finished;
    } else if verdict == NoReply {
      StoppedOutcome(env, mask, nkicked0, stopped, reports, verdict, k, trace);
      ret, outcome := Hangs, Stop(verdict, k);
    } else {
      trace := trace + [FreeBuffer];
      StoppedOutcome(env, mask, nkicked0, stopped, reports, verdict, k, trace);
      ret, outcome := Returned(0), Stop(verdict, k);
    }
  }
}
