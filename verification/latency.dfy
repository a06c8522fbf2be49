/**
 * One iteration of the inner loop of `measure_shmem_latency`: reset the
 * APU-to-RPU counter, send a message through shared memory, kick the remote,
 * wait for its kick back, check the echoed header and read both counters;
 * and the plan of the messages a whole run sends, size after size.
 *
 * Everything outside the client is an environment `Env`: whether the buffer
 * allocation succeeds, what each block write returns, what wakes the core
 * while it waits, what header the remote echoes, and what the two timers
 * read. The environment is indexed by the message number `k`, counted from 0
 * across the whole run (`k = ITERATIONS * size index + i - 1`).
 */
module Latency {
  import opened Ints
  import opened Trace
  import opened Registers
  import opened Stats
  import opened Notify

  // Shared memory layout
  const SHM_DEMO_CNTRL_OFFSET: nat := 0x0
  const SHM_BUFF_OFFSET_TX: nat := 0x1000
  const SHM_BUFF_OFFSET_RX: nat := 0x2000

  const DEMO_STATUS_IDLE: bv32 := 0x0
  const DEMO_STATUS_START: bv32 := 0x1

  const BUF_SIZE_MAX: nat := 4096
  const PKG_SIZE_MIN: nat := 16
  const PKG_SIZE_MAX: nat := 1024

  /** The message sizes in the order the size loop visits them. */
  const Sizes: seq<nat> := [16, 32, 64, 128, 256, 512, 1024]

  /** Messages in a complete run. */
  const MESSAGES: nat := 7000

  /** Number of the first message of size number `j`. */
  function FirstMessage(j: nat): nat
  {
    ITERATIONS * j
  }

  /** Every size's messages lie within the run, one block of ITERATIONS after the other. */
  lemma FirstMessageInRun(j: nat)
    requires j < |Sizes|
    ensures FirstMessage(j) + ITERATIONS <= MESSAGES
    ensures FirstMessage(j + 1) == FirstMessage(j) + ITERATIONS
  {
  }

  /**
   * The listed sizes are exactly what `for (s = PKG_SIZE_MIN; s <= PKG_SIZE_MAX; s <<= 1)`
   * visits: they start at the minimum, each doubles the previous, the last is
   * within the maximum and doubling it leaves the range.
   */
  lemma SizesDouble()
    ensures |Sizes| * ITERATIONS == MESSAGES
    ensures Sizes[0] == PKG_SIZE_MIN
    ensures forall j :: 0 <= j < |Sizes| - 1 ==> Sizes[j + 1] == 2 * Sizes[j]
    ensures forall j :: 0 <= j < |Sizes| ==> Sizes[j] <= PKG_SIZE_MAX
    ensures 2 * Sizes[|Sizes| - 1] > PKG_SIZE_MAX
    ensures forall j :: 0 <= j < |Sizes| ==> HEADER_SIZE < Sizes[j] <= BUF_SIZE_MAX
  {
  }

  /** Size of message `k`. */
  function SizeOf(k: nat): nat
    requires k < MESSAGES
  {
    Sizes[k / ITERATIONS]
  }

  /** Header index of message `k`: it restarts from 1 for every size. */
  function IndexOf(k: nat): nat
    requires k < MESSAGES
  {
    k % ITERATIONS + 1
  }

  /** The block write that sends message `k`: header `{index, s - 8}`, `s` bytes to the TX window. */
  function PlannedMessage(k: nat): Event
    requires k < MESSAGES
  {
    BlockWrite(Shm, SHM_BUFF_OFFSET_TX, Header(IndexOf(k), SizeOf(k) - HEADER_SIZE), SizeOf(k))
  }

  /** The first `n` messages of a run, in order. */
  function Planned(n: nat): (p: seq<Event>)
    requires n <= MESSAGES
    ensures |p| == n
  {
    if n == 0 then [] else Planned(n - 1) + [PlannedMessage(n - 1)]
  }

  /** The IPI kick: the channel mask written to the trigger register. */
  function Kick(mask: bv32): Event
  {
    Write32(Ipi, IPI_TRIG_OFFSET, mask)
  }

  /** Counter reading `k` of a list of readings; a counter past the end of the list reads 0. */
  function Tick(ticks: seq<u32>, k: nat): u32
  {
    if k < |ticks| then ticks[k] else 0
  }

  /** The `n` readings from message `base` on, widened to the `uint64_t` that `update_stat` takes. */
  function Samples(ticks: seq<u32>, base: nat, n: nat): (vs: seq<u64>)
    ensures |vs| == n
  {
    if n == 0 then [] else Samples(ticks, base, n - 1) + [Tick(ticks, base + n - 1) as u64]
  }

  /** Sample `i` is counter reading `base + i`, so every sample fits in 32 bits. */
  lemma {:induction false} SamplesAt(ticks: seq<u32>, base: nat, n: nat)
    ensures forall i :: 0 <= i < n ==> Samples(ticks, base, n)[i] == Tick(ticks, base + i)
    ensures Samples32(Samples(ticks, base, n))
  {
    if n > 0 {
      SamplesAt(ticks, base, n - 1);
    }
  }

  /** Message `k` of the plan is the `k`-th planned block write. */
  lemma {:induction false} PlannedAt(n: nat)
    requires n <= MESSAGES
    ensures forall k :: 0 <= k < n ==> Planned(n)[k] == PlannedMessage(k)
  {
    if n > 0 {
      PlannedAt(n - 1);
      var p := Planned(n);
      forall k | 0 <= k < n - 1
        ensures p[k] == PlannedMessage(k)
      {
        assert p[k] == Planned(n - 1)[k];
      }
    }
  }

  /**
   * Everything outside the client, message by message: entry `k` of each list
   * is what the environment does for message `k`. Past the end of a list the
   * environment stays silent: block writes return 0, nothing wakes the core, the
   * RX window holds a zero header and the counters read 0.
   */
  datatype Env = Env(
    allocOk: bool,             // metal_allocate_memory returned a buffer
    written: seq<i32>,         // return value of metal_io_block_write
    irqs: seq<seq<Wake>>,      // what wakes the core at each sleep of the wait
    echoed: seq<Header>,       // header found in the RX window after the wait
    a2rTicks: seq<u32>,        // APU-to-RPU counter value read at the end of the iteration
    r2aTicks: seq<u32>)        // RPU-to-APU counter value read at the end of the iteration
  {
    function Written(k: nat): i32 { if k < |written| then written[k] else 0 }
    function Irqs(k: nat): seq<Wake> { if k < |irqs| then irqs[k] else [] }
    function Echoed(k: nat): Header { if k < |echoed| then echoed[k] else Header(0, 0) }
  }

  /** The block write of message `k` reported the full size. */
  predicate WriteOk(env: Env, k: nat)
    requires k < MESSAGES
  {
    ToSize(env.Written(k)) == SizeOf(k)
  }

  /** The wait after message `k`, entered with flag `nkicked`, returns. */
  ghost predicate Answered(env: Env, mask: bv32, nkicked: bool, k: nat)
  {
    !nkicked || exists j :: 0 <= j < |env.Irqs(k)| && Kicks(env.Irqs(k)[j], mask)
  }

  /** The echoed length of message `k` is the one that was sent. */
  predicate EchoOk(env: Env, k: nat)
    requires k < MESSAGES
  {
    env.Echoed(k).len as int == SizeOf(k) - HEADER_SIZE
  }

  /** How one iteration of the inner loop ends. */
  datatype Verdict = Done | WriteShort | NoReply | BadEcho

  /** Reset of the APU-to-RPU counter, then the block write of message `k`. */
  function Sent(k: nat): seq<Event>
    requires k < MESSAGES
  {
    [ResetTimer(TTC_CNT_APU_TO_RPU), PlannedMessage(k)]
  }

  /** The block read of the echo of message `k` from the RX window. */
  function Received(k: nat): seq<Event>
    requires k < MESSAGES
  {
    [BlockRead(Shm, SHM_BUFF_OFFSET_RX, SizeOf(k))]
  }

  /** Stop of the RPU-to-APU counter, then the reads of both counters. */
  function Sampled(): seq<Event>
  {
    [StopTimer(TTC_CNT_RPU_TO_APU), ReadTimer(TTC_CNT_APU_TO_RPU), ReadTimer(TTC_CNT_RPU_TO_APU)]
  }

  /** The accesses after the wait returned: the block read, and the counter accesses if the echo was good. */
  function After(k: nat, verdict: Verdict): seq<Event>
    requires k < MESSAGES
  {
    match verdict
    case WriteShort => []
    case NoReply => []
    case BadEcho => Received(k)
    case Done => Received(k) + Sampled()
  }

  /**
   * The accesses of one iteration for message `k` that ended with `verdict`,
   * where `waited` is what the wait did: a short write stops before the kick,
   * a wait that never returns stops everything, a length mismatch stops after
   * the block read.
   */
  function RoundTrace(k: nat, mask: bv32, verdict: Verdict, waited: seq<Event>): seq<Event>
    requires k < MESSAGES
  {
    match verdict
    case WriteShort => Sent(k)
    case NoReply => Sent(k) + [Kick(mask)] + waited
    case BadEcho => Sent(k) + [Kick(mask)] + waited + Received(k)
    case Done => Sent(k) + [Kick(mask)] + waited + Received(k) + Sampled()
  }

  /**
   * One iteration of the inner loop of `measure_shmem_latency` for message
   * `k`, entered with flag `nkicked`: reset the APU-to-RPU counter, write the
   * message, check the written count, kick, wait, read the echo, check its
   * length, stop the RPU-to-APU counter and read both counters.
   *
   * How it ends is decided by the three checks in order, and only by the
   * echoed length, never by the echoed index. Returned besides the accesses:
   * the flag afterwards and the accesses of the wait alone.
   */
  method Exchange(env: Env, mask: bv32, nkicked: bool, k: nat)
    returns (events: seq<Event>, verdict: Verdict, nkickedOut: bool, waited: seq<Event>)
    requires k < MESSAGES
    ensures verdict == WriteShort <==> !WriteOk(env, k)
    ensures verdict == NoReply <==> WriteOk(env, k) && !Answered(env, mask, nkicked, k)
    ensures verdict == BadEcho <==> WriteOk(env, k) && Answered(env, mask, nkicked, k) && !EchoOk(env, k)
    ensures verdict == Done <==> WriteOk(env, k) && Answered(env, mask, nkicked, k) && EchoOk(env, k)
    ensures verdict == WriteShort ==> nkickedOut == nkicked
    ensures verdict != WriteShort ==> nkickedOut
    ensures verdict != WriteShort ==> WaitTraceOk(waited, mask)
    ensures verdict == NoReply ==> waited == Spurious(env.Irqs(k)) + HangPass
    ensures verdict != WriteShort ==> waited == WaitTrace(nkicked, mask, env.Irqs(k))
    ensures events == RoundTrace(k, mask, verdict, waited)
  {
    var s := SizeOf(k);
    events := [ResetTimer(TTC_CNT_APU_TO_RPU)];
    var hdr := Header(IndexOf(k), s - HEADER_SIZE);
    events := events + [BlockWrite(Shm, SHM_BUFF_OFFSET_TX, hdr, s)];
    assert events == Sent(k);
    waited, nkickedOut := [], nkicked;
    var ret := env.Written(k);
    if ToSize(ret) != s {
      verdict := WriteShort;
    } else {
      events := events + [Kick(mask)];
      var woken, used;
      waited, woken, used, nkickedOut := WaitForNotified(nkicked, mask, env.Irqs(k));
      events := events + waited;
      if !woken {
        verdict := NoReply;
      } else {
        events := events + Received(k);
        if env.Echoed(k).len as int != s - HEADER_SIZE {
          verdict := BadEcho;
        } else {
          events := events + Sampled();
          verdict := Done;
        }
      }
    }
  }

  /** A write to the shared-memory control word. */
  predicate ControlWrite(e: Event)
  {
    e.Write32? && e.region == Shm
  }

  /** No access of `t` writes a message, kicks, frees the buffer or writes the control word. */
  ghost predicate Quiet(t: seq<Event>, mask: bv32)
  {
    forall e :: e in t ==> !e.BlockWrite? && e != Kick(mask) && e != FreeBuffer && !ControlWrite(e)
  }

  lemma QuietAppend(a: seq<Event>, b: seq<Event>, mask: bv32)
    requires Quiet(a, mask) && Quiet(b, mask)
    ensures Quiet(a + b, mask)
  {
  }

  /** The wait is quiet. */
  lemma WaitQuiet(waited: seq<Event>, mask: bv32)
    requires WaitTraceOk(waited, mask)
    ensures Quiet(waited, mask)
  {
    forall e | e in waited
      ensures !e.BlockWrite? && e != Kick(mask) && e != FreeBuffer && !ControlWrite(e)
    {
      assert WaitEvent(e, mask);
    }
  }

  /** Nothing after the wait is noisy either. */
  lemma AfterQuiet(k: nat, mask: bv32, verdict: Verdict)
    requires k < MESSAGES
    ensures Quiet(After(k, verdict), mask)
  {
  }

  /** The head of an iteration writes exactly the planned message. */
  lemma SentMessages(k: nat)
    requires k < MESSAGES
    ensures Messages(Sent(k)) == [PlannedMessage(k)]
  {
    var sent := Sent(k);
    assert sent[..1] == [ResetTimer(TTC_CNT_APU_TO_RPU)];
    assert Messages(sent[..1]) == [] by { assert sent[..1][..0] == []; }
  }

  /**
   * An iteration writes exactly one message, the planned one, whatever its
   * verdict.
   */
  lemma RoundMessages(k: nat, mask: bv32, verdict: Verdict, waited: seq<Event>)
    requires k < MESSAGES
    requires verdict != WriteShort ==> WaitTraceOk(waited, mask)
    ensures Messages(RoundTrace(k, mask, verdict, waited)) == [PlannedMessage(k)]
  {
    SentMessages(k);
    RoundQuiet(k, mask, verdict, waited);
    if verdict != WriteShort {
      var rest := waited + After(k, verdict);
      MessagesNone(rest);
      MessagesNone([Kick(mask)]);
      MessagesAppend(Sent(k), [Kick(mask)]);
      MessagesAppend(Sent(k) + [Kick(mask)], rest);
    }
  }

  /**
   * Past its head an iteration is quiet: it writes no further message, kicks
   * no further time, frees nothing and never writes the control word.
   */
  lemma RoundQuiet(k: nat, mask: bv32, verdict: Verdict, waited: seq<Event>)
    requires k < MESSAGES
    requires verdict != WriteShort ==> WaitTraceOk(waited, mask)
    ensures verdict == WriteShort ==> RoundTrace(k, mask, verdict, waited) == Sent(k)
    ensures verdict != WriteShort ==>
              && RoundTrace(k, mask, verdict, waited) == Sent(k) + [Kick(mask)] + (waited + After(k, verdict))
              && Quiet(waited + After(k, verdict), mask)
  {
    if verdict != WriteShort {
      AfterQuiet(k, mask, verdict);
      WaitQuiet(waited, mask);
      QuietAppend(waited, After(k, verdict), mask);
      var pre := Sent(k) + [Kick(mask)];
      if verdict == Done {
        assert pre + waited + Received(k) + Sampled() == pre + (waited + (Received(k) + Sampled()));
      }
    }
  }

  /**
   * An iteration kicks the remote exactly once unless its write was short,
   * and never frees the buffer or writes the control word.
   */
  lemma RoundKicks(k: nat, mask: bv32, verdict: Verdict, waited: seq<Event>)
    requires k < MESSAGES
    requires verdict != WriteShort ==> WaitTraceOk(waited, mask)
    ensures Count(RoundTrace(k, mask, verdict, waited), Kick(mask)) == (if verdict == WriteShort then 0 else 1)
    ensures Count(RoundTrace(k, mask, verdict, waited), FreeBuffer) == 0
    ensures var t := RoundTrace(k, mask, verdict, waited);
            forall i :: 0 <= i < |t| ==> !ControlWrite(t[i])
  {
    RoundQuiet(k, mask, verdict, waited);
    RoundControl(k, mask, verdict, waited);
    var sent := Sent(k);
    CountIsMultiset(sent, Kick(mask));
    CountIsMultiset(sent, FreeBuffer);
    if verdict != WriteShort {
      var rest := waited + After(k, verdict);
      QuietCounts(rest, mask);
      CountAppend(sent, [Kick(mask)], Kick(mask));
      CountAppend(sent, [Kick(mask)], FreeBuffer);
      CountAppend(sent + [Kick(mask)], rest, Kick(mask));
      CountAppend(sent + [Kick(mask)], rest, FreeBuffer);
    }
  }

  /** A quiet trace neither kicks nor frees the buffer. */
  lemma QuietCounts(t: seq<Event>, mask: bv32)
    requires Quiet(t, mask)
    ensures Count(t, Kick(mask)) == 0 && Count(t, FreeBuffer) == 0
  {
    CountIsMultiset(t, Kick(mask));
    CountIsMultiset(t, FreeBuffer);
    assert Kick(mask) !in t && FreeBuffer !in t;
  }

  /** No access of an iteration writes the control word. */
  lemma RoundControl(k: nat, mask: bv32, verdict: Verdict, waited: seq<Event>)
    requires k < MESSAGES
    requires verdict != WriteShort ==> WaitTraceOk(waited, mask)
    ensures var t := RoundTrace(k, mask, verdict, waited);
            forall i :: 0 <= i < |t| ==> !ControlWrite(t[i])
  {
    RoundQuiet(k, mask, verdict, waited);
    var t := RoundTrace(k, mask, verdict, waited);
    forall i | 0 <= i < |t|
      ensures !ControlWrite(t[i])
    {
      assert t[i] in t;
    }
  }

  /**
   * Within an iteration the message is written only second, right after the
   * counter reset, and the remote is kicked only third, right after the
   * message: never before the write, and never twice.
   */
  lemma RoundPositions(k: nat, mask: bv32, verdict: Verdict, waited: seq<Event>)
    requires k < MESSAGES
    requires verdict != WriteShort ==> WaitTraceOk(waited, mask)
    ensures var t := RoundTrace(k, mask, verdict, waited);
      && |t| >= 2 && t[0] == ResetTimer(TTC_CNT_APU_TO_RPU) && t[1] == PlannedMessage(k)
      && (forall i :: 0 <= i < |t| && t[i].BlockWrite? ==> i == 1)
      && (forall i :: 0 <= i < |t| && t[i] == Kick(mask) ==> i == 2)
  {
    var t := RoundTrace(k, mask, verdict, waited);
    RoundQuiet(k, mask, verdict, waited);
    var reset := ResetTimer(TTC_CNT_APU_TO_RPU);
    assert t[0] == reset && reset.Write32? && reset.region == Ttc;
    if verdict != WriteShort {
      var rest := waited + After(k, verdict);
      forall i | 3 <= i < |t|
        ensures !t[i].BlockWrite? && t[i] != Kick(mask)
      {
        assert t[i] == rest[i - 3];
        assert rest[i - 3] in rest;
      }
    }
  }

  /**
   * How an iteration ends: the head is always the counter reset and the
   * message, followed by the kick unless the write was short; a wait that
   * never returns leaves the core in `wfi`; a bad echo ends with the block
   * read and never reaches `stop_timer`; a good one ends with the block read,
   * the stop and the two counter reads.
   */
  lemma RoundShape(k: nat, mask: bv32, verdict: Verdict, waited: seq<Event>)
    requires k < MESSAGES
    requires verdict != WriteShort ==> WaitTraceOk(waited, mask)
    requires verdict == NoReply ==> |waited| >= 2 && waited[|waited| - 2..] == HangPass
    ensures var t := RoundTrace(k, mask, verdict, waited);
      && |t| >= 2
      && t[0] == ResetTimer(TTC_CNT_APU_TO_RPU)
      && t[1] == PlannedMessage(k)
      && (verdict == WriteShort ==> |t| == 2)
      && (verdict != WriteShort ==> |t| >= 3 && t[2] == Kick(mask))
      && (verdict == NoReply ==> t[|t| - 2..] == [IrqSaveDisable, Wfi])
      && (verdict == BadEcho ==> t[|t| - 1] == BlockRead(Shm, SHM_BUFF_OFFSET_RX, SizeOf(k)))
      && (verdict == BadEcho ==> StopTimer(TTC_CNT_RPU_TO_APU) !in t)
      && (verdict == Done ==>
            t[|t| - 4..] ==
              [BlockRead(Shm, SHM_BUFF_OFFSET_RX, SizeOf(k)), StopTimer(TTC_CNT_RPU_TO_APU),
               ReadTimer(TTC_CNT_APU_TO_RPU), ReadTimer(TTC_CNT_RPU_TO_APU)])
  {
    var t := RoundTrace(k, mask, verdict, waited);
    assert t[..2] == Sent(k);
    match verdict
    case WriteShort =>
    case NoReply => HangTail(k, mask, waited);
    case BadEcho => BadEchoTail(k, mask, waited);
    case Done => DoneTail(k, mask, waited);
  }

  /** A wait that never returns leaves the iteration asleep in `wfi`. */
  lemma HangTail(k: nat, mask: bv32, waited: seq<Event>)
    requires k < MESSAGES
    requires |waited| >= 2 && waited[|waited| - 2..] == HangPass
    ensures var t := RoundTrace(k, mask, NoReply, waited);
      |t| >= 2 && t[|t| - 2..] == [IrqSaveDisable, Wfi]
  {
    SuffixOfAppend(Sent(k) + [Kick(mask)], waited, 2);
  }

  /** A bad echo ends the iteration with the block read, before `stop_timer`. */
  lemma BadEchoTail(k: nat, mask: bv32, waited: seq<Event>)
    requires k < MESSAGES
    requires WaitTraceOk(waited, mask)
    ensures var t := RoundTrace(k, mask, BadEcho, waited);
      && |t| >= 1
      && t[|t| - 1] == BlockRead(Shm, SHM_BUFF_OFFSET_RX, SizeOf(k))
      && StopTimer(TTC_CNT_RPU_TO_APU) !in t
  {
    TimerAccess(TTC_CNT_RPU_TO_APU, TTC_CNT_APU_TO_RPU);
    assert StopTimer(TTC_CNT_RPU_TO_APU) !in waited;
  }

  /** A good echo ends the iteration with the block read, the stop and both counter reads. */
  lemma DoneTail(k: nat, mask: bv32, waited: seq<Event>)
    requires k < MESSAGES
    ensures var t := RoundTrace(k, mask, Done, waited);
      && |t| >= 4
      && t[|t| - 4..] ==
           [BlockRead(Shm, SHM_BUFF_OFFSET_RX, SizeOf(k)), StopTimer(TTC_CNT_RPU_TO_APU),
            ReadTimer(TTC_CNT_APU_TO_RPU), ReadTimer(TTC_CNT_RPU_TO_APU)]
  {
    var head := Sent(k) + [Kick(mask)] + waited;
    assert RoundTrace(k, mask, Done, waited) == head + (Received(k) + Sampled());
    SuffixOfAppend(head, Received(k) + Sampled(), 4);
  }

}
