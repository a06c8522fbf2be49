/**
 * `shmem_latency_demo`: look up the three IO regions, arm the IPI, run the
 * measurement and disarm the IPI again.
 */
module Demo {
  import opened Wrappers
  import opened Ints
  import opened Trace
  import opened Registers
  import opened Notify
  import opened Latency
  import opened Measure

  /**
   * What the platform offers: whether the shared-memory device was opened,
   * whether each of its, the timer's and the IPI device's first IO region can
   * be mapped, and the IRQ vector of the IPI device.
   */
  datatype Platform = Platform(shmDev: bool, shmIo: bool, ttcIo: bool, ipiIo: bool, ipiIrq: int)

  /** `ENODEV`, the errno value the demo negates when a device is missing. */
  const ENODEV: int := 19

  /** All four lookups succeed. */
  predicate Mapped(p: Platform)
  {
    p.shmDev && p.shmIo && p.ttcIo && p.ipiIo
  }

  /**
   * The flag after `atomic_flag_clear` followed by `atomic_flag_test_and_set`:
   * set, so the first wait sleeps until the remote kicks.
   */
  function InitialFlag(): (f: bool)
    ensures f
  {
    var cleared := false;
    TestAndSet(cleared).1
  }

  /**
   * Arming the IPI: disable and acknowledge the channel's bit, register and
   * enable the handler on the vector, then enable the bit. The bit stays
   * disabled until everything else is in place, a stale status bit is
   * acknowledged before the handler can run, and the handler is registered
   * before its vector is enabled.
   */
  function Setup(irq: int): (s: seq<Event>)
    ensures |s| == 5
    ensures s[0] == Write32(Ipi, IPI_IDR_OFFSET, IPI_MASK)
    ensures s[|s| - 1] == Write32(Ipi, IPI_IER_OFFSET, IPI_MASK)
    ensures forall i, j ::
              (0 <= i < |s| && 0 <= j < |s| && s[i] == Write32(Ipi, IPI_ISR_OFFSET, IPI_MASK) && s[j] == IrqEnable(irq))
              ==> i < j
    ensures forall i, j :: 0 <= i < |s| && 0 <= j < |s| && s[i] == IrqRegister(irq) && s[j] == IrqEnable(irq) ==> i < j
    ensures Write32(Ipi, IPI_ISR_OFFSET, IPI_MASK) in s && IrqRegister(irq) in s && IrqEnable(irq) in s
  {
    [Write32(Ipi, IPI_IDR_OFFSET, IPI_MASK), Write32(Ipi, IPI_ISR_OFFSET, IPI_MASK),
     IrqRegister(irq), IrqEnable(irq), Write32(Ipi, IPI_IER_OFFSET, IPI_MASK)]
  }

  /**
   * Disarming the IPI: disable the bit, then disable and unregister the
   * vector. It undoes each enabling step of `Setup`, in the reverse order,
   * and unregisters the handler only once its vector is disabled.
   */
  function Teardown(irq: int): (t: seq<Event>)
    ensures |t| == 3
    ensures var last := Setup(irq)[|Setup(irq)| - 1];
            last.Write32? && t[0] == Write32(last.region, IPI_IDR_OFFSET, last.value)
    ensures forall e :: e in Setup(irq) && e.IrqEnable? ==> IrqDisable(e.vector) in t
    ensures forall e :: e in Setup(irq) && e.IrqRegister? ==> t[|t| - 1] == IrqUnregister(e.vector)
    ensures forall i, j :: 0 <= i < |t| && 0 <= j < |t| && t[i] == IrqDisable(irq) && t[j] == IrqUnregister(irq) ==> i < j
  {
    [Write32(Ipi, IPI_IDR_OFFSET, IPI_MASK), IrqDisable(irq), IrqUnregister(irq)]
  }

  /** The three parts of a trace framed by `a` and `b` can be cut out again. */
  lemma Framed(a: seq<Event>, m: seq<Event>, b: seq<Event>, t: seq<Event>)
    requires t == a + m + b
    ensures t[..|a|] == a && t[|a|..] == m + b
    ensures t[|a|..|t| - |b|] == m && t[|t| - |b|..] == b
  {
    assert t[..|a|] == a;
    assert t[|a|..] == m + b;
    assert t[|a|..|t| - |b|] == m;
  }

  /**
   * `shmem_latency_demo` on platform `p` with environment `env`. A missing
   * device or region returns -ENODEV before touching any register. Otherwise
   * the IPI is armed, `measure_shmem_latency` runs on a channel whose flag
   * starts set, and, unless it hangs, the IPI is disarmed and its result
   * returned. `outcome` is the measurement's outcome, `None` when it never ran,
   * and `run` the accesses the measurement made, between the arming and the
   * disarming.
   */
  method ShmemLatencyDemo(p: Platform, env: Env)
    returns (ret: Exit, trace: seq<Event>, reports: seq<Report>, outcome: Option<Outcome>, run: seq<Event>)
    ensures outcome.Some? <==> Mapped(p)
    ensures ret == Returned(-ENODEV) <==> !Mapped(p)
    ensures !Mapped(p) ==> trace == [] && reports == []
    ensures Mapped(p) ==> Explains(env, IPI_MASK, true, outcome.value)
    ensures ret == Returned(-1) <==> outcome == Some(NoMemory)
    ensures ret == Hangs <==> outcome.Some? && outcome.value.Stalled?
    ensures ret == Returned(0) <==>
              outcome.Some? && (outcome.value.WriteFailed? || outcome.value.EchoMismatch? || outcome.value == Finished)
    ensures Mapped(p) ==> |trace| >= 5 && trace[..5] == Setup(p.ipiIrq)
    ensures Mapped(p) && !outcome.value.Stalled? ==>
              |trace| >= 8 && trace[|trace| - 3..] == Teardown(p.ipiIrq)
    ensures outcome == Some(NoMemory) ==> trace == Setup(p.ipiIrq) + Teardown(p.ipiIrq) && reports == []
    ensures Mapped(p) ==>
              trace == Setup(p.ipiIrq) + run + (if outcome.value.Stalled? then [] else Teardown(p.ipiIrq))
    ensures Mapped(p) && outcome.value != NoMemory ==> RunTrace(run, IPI_MASK, outcome.value)
    ensures Mapped(p) ==> ReportsOk(env, reports)
    ensures outcome == Some(Finished) ==> |reports| == |Sizes|
  {
    if !p.shmDev || !p.shmIo || !p.ttcIo || !p.ipiIo {
      return Returned(-ENODEV), [], [], None, [];
    }
    var nkicked := InitialFlag();
    var setup := Setup(p.ipiIrq);
    var r, o;
    r, run, reports, o := MeasureShmemLatency(env, IPI_MASK, nkicked);
    outcome := Some(o);
    if r == Hangs {
      trace := setup + run;
      Framed(setup, run, [], trace);
      ret := Hangs;
    } else {
      var teardown := Teardown(p.ipiIrq);
      trace := setup + run + teardown;
      Framed(setup, run, teardown, trace);
      ret := r;
    }
  }
}
