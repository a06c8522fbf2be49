/**
 * Register layout of the IPI block and the triple timer counter (TTC), and the
 * three timer accessors `read_timer`, `reset_timer` and `stop_timer`.
 */
module Registers {
  import opened Trace

  // IPI register offsets
  const IPI_TRIG_OFFSET: nat := 0x0
  const IPI_OBS_OFFSET: nat := 0x4
  const IPI_ISR_OFFSET: nat := 0x10
  const IPI_IMR_OFFSET: nat := 0x14
  const IPI_IER_OFFSET: nat := 0x18
  const IPI_IDR_OFFSET: nat := 0x1C

  /** Interrupt source bit of the kick from the remote core. */
  const IPI_MASK: bv32 := 0x100

  // TTC counter register offsets
  const XTTCPS_CLK_CNTRL_OFFSET: nat := 0x0
  const XTTCPS_CNT_CNTRL_OFFSET: nat := 0xC
  const XTTCPS_CNT_VAL_OFFSET: nat := 0x18

  // TTC counter control masks
  const XTTCPS_CNT_CNTRL_RST_MASK: bv32 := 0x10
  const XTTCPS_CNT_CNTRL_DIS_MASK: bv32 := 0x01

  /** Counter ids used by the demo. */
  const TTC_CNT_APU_TO_RPU: nat := 2
  const TTC_CNT_RPU_TO_APU: nat := 3

  /** `1 << n`. */
  function Pow2(n: nat): (r: nat)
    ensures r >= 1
  {
    if n == 0 then 1 else 2 * Pow2(n - 1)
  }

  /**
   * `XTTCPS_CNT_OFFSET(ID)`: `ID == 1 ? 0 : 1 << ID`. The shift is on a C
   * `int`, so only ids below 31 have a defined value.
   */
  function CntOffset(id: nat): (r: nat)
    requires id < 31
    ensures r == 0 <==> id == 1
    ensures 2 <= id ==> 2 <= r && r % 2 == 0
  {
    if id == 1 then 0 else Pow2(id)
  }

  /** Every id from 1 up gives a word-aligned offset (id 0 would give 1). */
  lemma {:induction false} CntOffsetAligned(id: nat)
    requires 1 <= id < 31
    ensures CntOffset(id) % 4 == 0
    decreases id
  {
    if id > 2 {
      CntOffsetAligned(id - 1);
    }
  }

  /**
   * The offset grows strictly with the id from 1 on, so distinct ids get
   * distinct offsets: no two counters share a control register or a value
   * register.
   */
  lemma {:induction false} CntOffsetIncreasing(a: nat, b: nat)
    requires 1 <= a < b < 31
    ensures CntOffset(a) < CntOffset(b)
    decreases b
  {
    if a < b - 1 {
      CntOffsetIncreasing(a, b - 1);
    }
  }

  /** For the documented ids 1 to 3 the offset is 0, 4, 8: four bytes per counter. */
  lemma CntOffsetDocumentedIds(id: nat)
    requires 1 <= id <= 3
    ensures CntOffset(id) == 4 * (id - 1)
  {
  }

  /** Control-register address of a counter. */
  function CtrlAddr(id: nat): (r: nat)
    requires id < 31
  {
    XTTCPS_CNT_CNTRL_OFFSET + CntOffset(id)
  }

  /** Value-register address of a counter. */
  function ValAddr(id: nat): (r: nat)
    requires id < 31
  {
    XTTCPS_CNT_VAL_OFFSET + CntOffset(id)
  }

  /**
   * `reset_timer`: set the reset bit in the counter's control register. The
   * write lands in the counter's own control register and does not also set
   * the disable bit.
   */
  function ResetTimer(id: nat): (e: Event)
    requires id < 31
    ensures e.Write32? && e.region == Ttc && e.offset == CtrlAddr(id)
    ensures e.value & XTTCPS_CNT_CNTRL_RST_MASK != 0 && e.value & XTTCPS_CNT_CNTRL_DIS_MASK == 0
  {
    Write32(Ttc, CtrlAddr(id), XTTCPS_CNT_CNTRL_RST_MASK)
  }

  /**
   * `stop_timer`: set the disable bit in the counter's control register, the
   * register `reset_timer` writes, without also setting the reset bit.
   */
  function StopTimer(id: nat): (e: Event)
    requires id < 31
    ensures e.Write32? && e.region == Ttc && e.offset == ResetTimer(id).offset
    ensures e.value & XTTCPS_CNT_CNTRL_DIS_MASK != 0 && e.value & XTTCPS_CNT_CNTRL_RST_MASK == 0
  {
    Write32(Ttc, CtrlAddr(id), XTTCPS_CNT_CNTRL_DIS_MASK)
  }

  /**
   * `read_timer`: a 32-bit read of the counter's value register, which lies
   * 0xC bytes past the control register that reset and stop write.
   */
  function ReadTimer(id: nat): (e: Event)
    requires id < 31
    ensures e.Read32? && e.region == Ttc && e.offset == ResetTimer(id).offset + 0xC
  {
    Read32(Ttc, ValAddr(id))
  }

  /**
   * The accessors of the documented counters 1 to 3 hit 0xC + 4(id-1) with
   * 0x10 (reset) or 0x01 (stop) and read 0x18 + 4(id-1); reset and stop share
   * one register and no control register of one counter is the value register
   * of another.
   */
  lemma TimerAccess(id: nat, other: nat)
    requires 1 <= id <= 3 && 1 <= other <= 3
    ensures ResetTimer(id) == Write32(Ttc, 0xC + 4 * (id - 1), 0x10)
    ensures StopTimer(id) == Write32(Ttc, 0xC + 4 * (id - 1), 0x01)
    ensures ReadTimer(id) == Read32(Ttc, 0x18 + 4 * (id - 1))
    ensures CtrlAddr(id) != ValAddr(other)
    ensures id != other ==> CtrlAddr(id) != CtrlAddr(other) && ValAddr(id) != ValAddr(other)
  {
    CntOffsetDocumentedIds(id);
    CntOffsetDocumentedIds(other);
  }

  /** Beyond the documented range the blocks collide: counter 4's control register is counter 2's value register. */
  lemma CounterFourOverlaps()
    ensures CtrlAddr(4) == ValAddr(2)
  {
  }
}
