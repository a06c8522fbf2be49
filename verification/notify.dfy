/**
 * The notification primitive: the `remote_nkicked` flag of the channel, the IPI
 * interrupt handler `ipi_irq_handler` that clears it, and the wait loop
 * `wait_for_notified` that consumes it.
 *
 * The flag is an `atomic_flag` whose SET state means "not yet kicked by the
 * remote". The handler and each pass of the wait loop are atomic transitions
 * on the shared flag; an interrupt is only delivered at the point where the
 * wait loop re-enables interrupts after `wfi`.
 */
module Notify {
  import opened Wrappers
  import opened Trace
  import opened Registers

  /** The part of `struct channel_s` the handler uses: the IPI mask and the flag. */
  datatype Channel = Channel(ipiMask: bv32, nkicked: bool)

  datatype IrqReturn = IrqNotHandled | IrqHandled

  datatype HandlerResult = HandlerResult(events: seq<Event>, ch: Option<Channel>, ret: IrqReturn)

  /** The interrupt status value has the channel's bit set. */
  predicate Matches(isr: bv32, mask: bv32)
  {
    isr & mask != 0
  }

  /**
   * `ipi_irq_handler`, given the channel pointer (`None` for NULL) and the value
   * the interrupt status register holds when it is read. The vector id is
   * ignored by the source and omitted here.
   */
  function IpiIrqHandler(ch: Option<Channel>, isr: bv32): (h: HandlerResult)
    ensures h.ret == IrqHandled <==> ch.Some? && Matches(isr, ch.value.ipiMask)
    ensures h.ret == IrqHandled ==>
              && h.ch == Some(ch.value.(nkicked := false))
              && h.events == [Read32(Ipi, IPI_ISR_OFFSET), Write32(Ipi, IPI_ISR_OFFSET, ch.value.ipiMask)]
    ensures h.ret == IrqNotHandled ==>
              && h.ch == ch
              && forall e :: e in h.events ==> !e.Write32?
  {
    match ch
    case None => HandlerResult([], None, IrqNotHandled)
    case Some(c) =>
      var rd := [Read32(Ipi, IPI_ISR_OFFSET)];
      if isr & c.ipiMask != 0 then
        HandlerResult(rd + [Write32(Ipi, IPI_ISR_OFFSET, c.ipiMask)], Some(c.(nkicked := false)), IrqHandled)
      else
        HandlerResult(rd, ch, IrqNotHandled)
  }

  /** `atomic_flag_test_and_set`: the previous value, and the flag is set afterwards. */
  function TestAndSet(flag: bool): (r: (bool, bool))
    ensures r.1
    ensures r.0 == flag
  {
    (flag, true)
  }

  /** The only accesses the wait loop and the handler it lets in can make. */
  predicate WaitEvent(e: Event, mask: bv32)
  {
    || e == IrqSaveDisable
    || e == IrqRestoreEnable
    || e == Wfi
    || e == Read32(Ipi, IPI_ISR_OFFSET)
    || e == Write32(Ipi, IPI_ISR_OFFSET, mask)
  }

  /**
   * What wakes the core from `wfi`: another interrupt, which runs no handler
   * of this channel, or an interrupt of the IPI vector, whose handler reads
   * `isr` from the status register.
   */
  datatype Wake = Foreign | IpiIrq(isr: bv32)

  /** The wake-up is the remote's kick: an IPI interrupt carrying the channel's bit. */
  predicate Kicks(w: Wake, mask: bv32)
  {
    w.IpiIrq? && Matches(w.isr, mask)
  }

  /** The accesses of one pass of the wait loop, by how the pass ends. */
  const ExitPass: seq<Event> := [IrqSaveDisable, IrqRestoreEnable]
  const HangPass: seq<Event> := [IrqSaveDisable, Wfi]
  const ForeignPass: seq<Event> := [IrqSaveDisable, Wfi, IrqRestoreEnable]
  const SpuriousPass: seq<Event> := [IrqSaveDisable, Wfi, IrqRestoreEnable, Read32(Ipi, IPI_ISR_OFFSET)]

  function KickPass(mask: bv32): seq<Event>
  {
    SpuriousPass + [Write32(Ipi, IPI_ISR_OFFSET, mask)]
  }

  /** The accesses of a pass woken by `w` when `w` is not the kick. */
  function WakePass(w: Wake): seq<Event>
  {
    match w
    case Foreign => ForeignPass
    case IpiIrq(_) => SpuriousPass
  }

  /** The passes woken, one after the other, by the wake-ups `ws`, none of them the kick. */
  function Spurious(ws: seq<Wake>): seq<Event>
  {
    if |ws| == 0 then [] else Spurious(ws[..|ws| - 1]) + WakePass(ws[|ws| - 1])
  }

  /**
   * Passes that are not woken by the kick only disable and restore
   * interrupts, sleep, and read the status register.
   */
  lemma {:induction false} SpuriousEvents(ws: seq<Wake>)
    ensures forall e :: e in Spurious(ws) ==> e in SpuriousPass
  {
    if |ws| > 0 {
      SpuriousEvents(ws[..|ws| - 1]);
      assert Spurious(ws) == Spurious(ws[..|ws| - 1]) + WakePass(ws[|ws| - 1]);
    }
  }

  /** One such pass disables, restores and sleeps once, and never acknowledges the channel's bit. */
  lemma WakePassCounts(w: Wake, mask: bv32)
    ensures multiset(WakePass(w))[IrqSaveDisable] == 1
    ensures multiset(WakePass(w))[IrqRestoreEnable] == 1
    ensures multiset(WakePass(w))[Wfi] == 1
    ensures multiset(WakePass(w))[Write32(Ipi, IPI_ISR_OFFSET, mask)] == 0
  {
  }

  /**
   * Passes woken by the wake-ups `ws`, none of them the kick, disable and
   * restore interrupts in pairs, sleep once each and never acknowledge the
   * channel's bit.
   */
  lemma {:induction false} SpuriousFacts(ws: seq<Wake>, mask: bv32)
    ensures multiset(Spurious(ws))[IrqSaveDisable] == |ws|
    ensures multiset(Spurious(ws))[IrqRestoreEnable] == |ws|
    ensures multiset(Spurious(ws))[Wfi] == |ws|
    ensures multiset(Spurious(ws))[Write32(Ipi, IPI_ISR_OFFSET, mask)] == 0
  {
    if |ws| > 0 {
      var w := ws[|ws| - 1];
      SpuriousFacts(ws[..|ws| - 1], mask);
      WakePassCounts(w, mask);
      assert multiset(Spurious(ws)) == multiset(Spurious(ws[..|ws| - 1])) + multiset(WakePass(w));
    }
  }

  /** Every access of trace `t` is one the wait loop or the handler makes. */
  ghost predicate WaitTraceOk(t: seq<Event>, mask: bv32)
  {
    forall e :: e in t ==> WaitEvent(e, mask)
  }

  /** The trace of a wait that returns after the wake-ups `ws` and then the kick. */
  lemma WokenTraceFacts(t: seq<Event>, ws: seq<Wake>, mask: bv32)
    requires t == Spurious(ws) + KickPass(mask) + ExitPass
    ensures WaitTraceOk(t, mask)
  {
    SpuriousEvents(ws);
  }

  /** The trace of a wait that never returns, after the wake-ups `ws`. */
  lemma HungTraceFacts(t: seq<Event>, ws: seq<Wake>, mask: bv32)
    requires t == Spurious(ws) + HangPass
    ensures WaitTraceOk(t, mask)
  {
    SpuriousEvents(ws);
  }

  /** The position of the first wake-up of `ws` that is the kick, or `|ws|` if none is. */
  function FirstKick(ws: seq<Wake>, mask: bv32): (u: nat)
    ensures u <= |ws|
    ensures u < |ws| ==> Kicks(ws[u], mask)
    ensures forall j :: 0 <= j < u ==> !Kicks(ws[j], mask)
  {
    if |ws| == 0 then 0
    else if Kicks(ws[0], mask) then 0
    else
      var u := 1 + FirstKick(ws[1..], mask);
      assert forall j :: 1 <= j < u ==> ws[j] == ws[1..][j - 1];
      u
  }

  /** A position with the kick and none before it is the first kick. */
  lemma FirstKickIs(ws: seq<Wake>, mask: bv32, u: nat)
    requires u <= |ws|
    requires u < |ws| ==> Kicks(ws[u], mask)
    requires forall j :: 0 <= j < u ==> !Kicks(ws[j], mask)
    ensures FirstKick(ws, mask) == u
  {
  }

  /**
   * What `wait_for_notified` does, from the flag on entry and the wake-ups:
   * with the flag clear it returns at once; otherwise it passes over every
   * wake-up before the first kick and returns after the kick, or, with no
   * kick, sleeps for good after the last wake-up.
   */
  function WaitTrace(nkicked0: bool, mask: bv32, ws: seq<Wake>): seq<Event>
  {
    if !nkicked0 then ExitPass
    else
      var u := FirstKick(ws, mask);
      if u < |ws| then Spurious(ws[..u]) + KickPass(mask) + ExitPass else Spurious(ws) + HangPass
  }

  /** A wait whose first kick is wake-up `u` returns after passing over the wake-ups before it. */
  lemma WaitTraceKicked(mask: bv32, ws: seq<Wake>, u: nat)
    requires u < |ws| && Kicks(ws[u], mask)
    requires forall j :: 0 <= j < u ==> !Kicks(ws[j], mask)
    ensures WaitTrace(true, mask, ws) == Spurious(ws[..u]) + KickPass(mask) + ExitPass
  {
    FirstKickIs(ws, mask, u);
  }

  /** A wait with no kick among its wake-ups sleeps for good after the last one. */
  lemma WaitTraceHung(mask: bv32, ws: seq<Wake>)
    requires forall j :: 0 <= j < |ws| ==> !Kicks(ws[j], mask)
    ensures WaitTrace(true, mask, ws) == Spurious(ws) + HangPass
  {
    FirstKickIs(ws, mask, |ws|);
  }

  /** Whatever the wake-ups, the wait only makes the accesses of the loop and its handler. */
  lemma WaitTraceEvents(nkicked0: bool, mask: bv32, ws: seq<Wake>)
    ensures WaitTraceOk(WaitTrace(nkicked0, mask, ws), mask)
  {
    if nkicked0 {
      var u := FirstKick(ws, mask);
      if u < |ws| {
        WokenTraceFacts(WaitTrace(nkicked0, mask, ws), ws[..u], mask);
      } else {
        HungTraceFacts(WaitTrace(nkicked0, mask, ws), ws, mask);
      }
    }
  }

  /**
   * One pass of the do-while loop of `wait_for_notified`, entered with flag
   * `nkicked`: interrupts are disabled and the flag test-and-set. Seeing it
   * clear, the pass restores interrupts and the loop ends (`exit`). Seeing it
   * set, the core sleeps in `wfi` until `next` wakes it; once interrupts are
   * restored, an IPI interrupt runs the handler, and any other runs nothing
   * of this channel. With no next wake-up the core sleeps for good (`asleep`).
   */
  datatype Pass = Pass(events: seq<Event>, exit: bool, asleep: bool, nkicked: bool)

  function WaitPass(nkicked: bool, mask: bv32, next: Option<Wake>): (p: Pass)
    ensures p.exit <==> !nkicked
    ensures p.asleep <==> nkicked && next.None?
    ensures p.exit ==> p.nkicked && p.events == ExitPass
    ensures p.asleep ==> p.nkicked && p.events == HangPass
    ensures !p.exit && !p.asleep ==>
              if Kicks(next.value, mask) then !p.nkicked && p.events == KickPass(mask)
              else p.nkicked && p.events == WakePass(next.value)
  {
    var (seen, flag) := TestAndSet(nkicked);
    if !seen then
      Pass([IrqSaveDisable, IrqRestoreEnable], true, false, flag)
    else if next.None? then
      Pass([IrqSaveDisable, Wfi], false, true, flag)
    else
      match next.value
      case Foreign =>
        Pass([IrqSaveDisable, Wfi, IrqRestoreEnable], false, false, flag)
      case IpiIrq(isr) =>
        var h := IpiIrqHandler(Some(Channel(mask, flag)), isr);
        Pass([IrqSaveDisable, Wfi, IrqRestoreEnable] + h.events, false, false, h.ch.value.nkicked)
  }

  /** The accesses up to the pass that consumed the kick, or none if the flag was clear on entry. */
  function KickedTrace(ws: seq<Wake>, used: nat, mask: bv32): seq<Event>
    requires used <= |ws|
  {
    if used == 0 then [] else Spurious(ws[..used - 1]) + KickPass(mask)
  }

  /** What wakes the next `wfi` of the wait loop, after `used` of `ws` were consumed. */
  function NextWake(ws: seq<Wake>, used: nat): Option<Wake>
  {
    if used < |ws| then Some(ws[used]) else None
  }

  /** None of the first `n` of `ws` is the kick. */
  ghost predicate NoKickBefore(ws: seq<Wake>, mask: bv32, n: int)
  {
    forall j :: 0 <= j < n && j < |ws| ==> !Kicks(ws[j], mask)
  }

  /**
   * Where the wait loop stands after some passes: still waiting with the flag
   * set, kicked (flag clear) but not yet exited, returned, or asleep for good.
   */
  ghost predicate WaitInv(nkicked0: bool, mask: bv32, ws: seq<Wake>,
                          events: seq<Event>, woken: bool, asleep: bool, used: nat, nkicked: bool)
  {
    && used <= |ws|
    && (used > 0 ==> nkicked0)
    && NoKickBefore(ws, mask, used - 1)
    && (!woken && !asleep && nkicked ==>
          nkicked0 && (used == 0 || !Kicks(ws[used - 1], mask)) && events == Spurious(ws[..used]))
    && (!woken && !asleep && !nkicked ==>
          (used == 0 <==> !nkicked0) && (used > 0 ==> Kicks(ws[used - 1], mask))
          && events == KickedTrace(ws, used, mask))
    && (woken ==>
          !asleep && nkicked && (used == 0 <==> !nkicked0) && (used > 0 ==> Kicks(ws[used - 1], mask))
          && events == KickedTrace(ws, used, mask) + ExitPass)
    && (asleep ==>
          nkicked && nkicked0 && used == |ws| && (used == 0 || !Kicks(ws[used - 1], mask))
          && events == Spurious(ws[..used]) + HangPass)
  }

  /** One pass keeps `WaitInv`. */
  lemma WaitPassKeeps(nkicked0: bool, mask: bv32, ws: seq<Wake>, events: seq<Event>, used: nat, nkicked: bool)
    requires WaitInv(nkicked0, mask, ws, events, false, false, used, nkicked)
    ensures var p := WaitPass(nkicked, mask, NextWake(ws, used));
            WaitInv(nkicked0, mask, ws, events + p.events, p.exit, p.asleep,
                    if p.exit || p.asleep then used else used + 1, p.nkicked)
  {
    if used < |ws| {
      assert ws[..used + 1][..used] == ws[..used];
    }
  }

  /**
   * `wait_for_notified` on a channel with mask `mask`, starting from flag
   * `nkicked0`, while the core is woken from `wfi` by the wake-ups `ws`, one
   * per sleep. The loop repeats `WaitPass` until a pass exits; if the
   * wake-ups run out first, the core stays in `wfi` for good: `woken` is
   * false and `events` ends there.
   *
   * Returned: the accesses made, whether the call returns, how many wake-ups
   * it consumed, and the flag afterwards.
   */
  method WaitForNotified(nkicked0: bool, mask: bv32, ws: seq<Wake>)
    returns (events: seq<Event>, woken: bool, used: nat, nkicked: bool)
    ensures woken <==> !nkicked0 || exists j :: 0 <= j < |ws| && Kicks(ws[j], mask)
    ensures nkicked
    ensures used <= |ws|
    ensures !nkicked0 ==> used == 0 && events == ExitPass
    ensures woken && nkicked0 ==>
              && 0 < used
              && Kicks(ws[used - 1], mask)
              && (forall j :: 0 <= j < used - 1 ==> !Kicks(ws[j], mask))
              && events == Spurious(ws[..used - 1]) + KickPass(mask) + ExitPass
    ensures !woken ==> used == |ws| && events == Spurious(ws) + HangPass
    ensures WaitTraceOk(events, mask)
    ensures events == WaitTrace(nkicked0, mask, ws)
  {
    events, woken, used, nkicked := [], false, 0, nkicked0;
    var asleep := false;
    while !woken && !asleep
      invariant WaitInv(nkicked0, mask, ws, events, woken, asleep, used, nkicked)
      decreases |ws| - used + (if woken || asleep then 0 else 1)
    {
      WaitPassKeeps(nkicked0, mask, ws, events, used, nkicked);
      var p := WaitPass(nkicked, mask, NextWake(ws, used));
      events := events + p.events;
      nkicked := p.nkicked;
      woken := p.exit;
      asleep := p.asleep;
      if !p.exit && !p.asleep {
        used := used + 1;
      }
    }
    if woken {
      WaitReturned(nkicked0, mask, ws, events, used, nkicked);
    } else {
      WaitHung(nkicked0, mask, ws, events, used, nkicked);
    }
  }

  /** A wait whose loop returned did so at the first kick, or at once if the flag was clear. */
  lemma WaitReturned(nkicked0: bool, mask: bv32, ws: seq<Wake>, events: seq<Event>, used: nat, nkicked: bool)
    requires WaitInv(nkicked0, mask, ws, events, true, false, used, nkicked)
    ensures !nkicked0 || exists j :: 0 <= j < |ws| && Kicks(ws[j], mask)
    ensures nkicked && used <= |ws|
    ensures !nkicked0 ==> used == 0 && events == ExitPass
    ensures nkicked0 ==>
              && 0 < used
              && Kicks(ws[used - 1], mask)
              && (forall j :: 0 <= j < used - 1 ==> !Kicks(ws[j], mask))
              && events == Spurious(ws[..used - 1]) + KickPass(mask) + ExitPass
    ensures WaitTraceOk(events, mask)
    ensures events == WaitTrace(nkicked0, mask, ws)
  {
    if nkicked0 {
      WokenTraceFacts(events, ws[..used - 1], mask);
      WaitTraceKicked(mask, ws, used - 1);
    }
  }

  /** A wait whose loop went to sleep for good saw no kick among all its wake-ups. */
  lemma WaitHung(nkicked0: bool, mask: bv32, ws: seq<Wake>, events: seq<Event>, used: nat, nkicked: bool)
    requires WaitInv(nkicked0, mask, ws, events, false, true, used, nkicked)
    ensures nkicked0 && forall j :: 0 <= j < |ws| ==> !Kicks(ws[j], mask)
    ensures nkicked && used == |ws|
    ensures events == Spurious(ws) + HangPass
    ensures WaitTraceOk(events, mask)
    ensures events == WaitTrace(nkicked0, mask, ws)
  {
    assert ws[..used] == ws;
    HungTraceFacts(events, ws, mask);
    assert forall j :: 0 <= j < |ws| ==> !Kicks(ws[j], mask) by {
      if used > 0 {
        assert !Kicks(ws[used - 1], mask);
      }
    }
    WaitTraceHung(mask, ws);
  }
}
