# Shared-memory latency demo, modelled in Dafny

This project models the client (APU) side of the libmetal shared-memory
latency demo. The client runs on one core and talks to a remote core (the
RPU) through three memory-mapped regions:

- the shared memory, which holds a control word and a TX and an RX window;
- the IPI block, which lets the two cores kick each other;
- the triple timer counter (TTC), which times each leg of a round trip.

For each message size from 16 to 1024 bytes, doubling each time, the client
sends ITERATIONS = 1000 messages. Each iteration goes through these steps:

1. Reset the APU-to-RPU counter.
2. Write the message: an 8-byte header `{index, len}` followed by the payload.
3. Kick the remote.
4. Sleep in the `wait_for_notified` loop until the IPI handler clears the
   channel's `remote_nkicked` flag.
5. Read the echo back and check its length.
6. Stop the RPU-to-APU counter.
7. Fold both counter readings into per-size statistics (`update_stat`).

After each size the client prints min, max and average. After the last size
it writes the idle status, kicks once more and frees its buffer.
`shmem_latency_demo` wraps this measurement: it maps the three regions, arms
the IPI around the measurement and disarms it afterwards.

The model is observational. Every register access, block transfer and
interrupt-subsystem call the client makes is recorded as one `Event` in a
trace. Everything outside the client is an environment `Env`, indexed by
message number:

- whether the allocation succeeds;
- what each block write returns;
- what wakes the client each time it sleeps in `wfi`: an interrupt of the
  IPI vector, with the status value its handler reads, or any other
  interrupt, which runs no handler of this channel;
- the echoed header;
- both counter readings.

Interrupts reach the client only at the point where the wait loop re-enables
interrupts after `wfi`. A wait with no wake-up that carries the channel's bit
never returns, as in the code, which has no timeout.

Modules, in dependency order:

- `Wrappers`: optional values, for a pointer that may be NULL.
- `Ints`: machine widths and the `(size_t)` conversion.
- `Trace`: the events, the messages of a trace, and `Count`, the tally of
  one access in a trace, proved equal to its multiset multiplicity
  (`Trace.CountIsMultiset`).
- `Registers`: the register layout and the timer accessors.
- `Stats`: `metal_stat` and `update_stat`.
- `Notify`: the flag, the handler and the wait loop.
- `Latency`: one iteration.
- `Measure`: `measure_shmem_latency`.
- `Demo`: `shmem_latency_demo`.

Notes on the code's behaviour:

- The flag starts set: it is cleared and then test-and-set, so the first
  wait sleeps until the remote kicks.
- The flag is set again only by the test-and-set that lets a wait return,
  so every later wait also sleeps until the next kick
  (`Measure.EntryFlag`).
- The count returned by `metal_io_block_read` is not checked. Only the
  echoed header's length field is compared with the size sent; the echoed
  index is ignored.
- A short block write or a wrong echo length ends the measurement early, but
  both exits reach `out:`, free the buffer and return 0 (see Findings). The
  demo then disarms the IPI as usual and also returns 0.
- The only exit that skips the IPI teardown is a wait that never returns.
- The `-ENODEV` exits happen before anything is armed, so they have nothing
  to tear down.
- The handler does not stop the RPU-to-APU counter, although its doc
  comment (lines 126-128) and the comment at line 213 say so. The client
  stops it at line 227, after the block read and the length check, so each
  RPU-to-APU reading also covers the read and the check. The model follows
  the code: `StopTimer` comes after `Received(k)` in `Latency.Exchange`.

## Model

| member | source | states |
|---|---|---|
| Ints.ToSizeExact | src/shmem_latency_demo.c:203-205 | the check `(size_t)ret != s` on a message size fails exactly when the signed count differs from the size; a negative return never passes as a full write |
| Ints.Add64Wraps | src/common.h:121-122 | the 64-bit counters of `metal_stat` add modulo 2^64 |
| Stats.UpdateStat | src/common.h:119-127 | one more sample: the count grows by one and the sum by the sample, each wrapping modulo 2^64 past `UINT64_MAX`; the minimum is the smaller of the old minimum and the sample, and the maximum the larger |
| Stats.AverageNs | src/shmem_latency_demo.c:237-242 | the printed average `st_sum * NS_PER_TTC_TICK / ITERATIONS` is the product taken modulo 2^64 and then divided by 1000, rounded down; while the product fits in 64 bits it is the exact product divided by 1000 |
| Stats.AccumulateFromInit | src/common.h:111-127 | from `STAT_INIT`, folding in fewer than 2^32 samples of 32 bits gives the exact count and sum without wrapping; the minimum and maximum are samples that bound all the others |
| Stats.AverageWithinRange | src/shmem_latency_demo.c:235-242 | for one size's 1000 samples the printed `st_sum * NS_PER_TTC_TICK / ITERATIONS` does not overflow, equals the exact mean in ns, and lies between min and max in ns |
| Registers.CntOffset | src/common.h:41-42 | `XTTCPS_CNT_OFFSET(ID)` is 0 exactly for counter 1 and a nonzero even offset for every later counter |
| Registers.ResetTimer | src/shmem_latency_demo.c:95-104 | `reset_timer` writes the counter's own control register in the TTC region, with the reset bit and without the disable bit |
| Registers.StopTimer | src/shmem_latency_demo.c:113-122 | `stop_timer` writes the register `reset_timer` writes, with the disable bit and without the reset bit |
| Registers.ReadTimer | src/shmem_latency_demo.c:79-86 | `read_timer` reads the counter's value register, 0xC bytes past the control register that reset and stop write |
| Registers.CntOffsetAligned | src/common.h:41-42 | `XTTCPS_CNT_OFFSET(ID)` is word-aligned for every id from 1 on |
| Registers.CntOffsetIncreasing | src/common.h:41-42 | the counter offset grows strictly with the id, so distinct ids get distinct offsets, and no two counters share a control register or a value register |
| Registers.CntOffsetDocumentedIds | src/common.h:41-42 | for the documented ids 1 to 3 the offsets are 0, 4 and 8 |
| Registers.TimerAccess | src/shmem_latency_demo.c:79-122 | `reset_timer`, `stop_timer` and `read_timer` of counters 1 to 3 write 0x10 or 0x01 to the control register and read the value register at the documented addresses; no control register of a counter is a value register, and distinct counters use distinct registers |
| Registers.CounterFourOverlaps | src/common.h:38-42 | beyond the documented range the macro makes counter 4's control register coincide with counter 2's value register, an overlap that the comment's "ID is from 1 to 3" rules out |
| Notify.IpiIrqHandler | src/shmem_latency_demo.c:138-153 | the handler reports handled exactly when the channel pointer is non-null and the status has the channel's bit; then it acknowledges that bit and clears the flag; otherwise it writes nothing and leaves the channel alone |
| Notify.TestAndSet | src/common.h:83 | `atomic_flag_test_and_set` returns the flag's previous value and leaves it set |
| Notify.WaitPass | src/common.h:81-89 | one pass of the wait loop exits exactly when it finds the flag clear; it sleeps for good exactly when the flag is set and nothing wakes the core; a woken pass leaves the flag clear exactly when the wake-up is an IPI interrupt carrying the channel's bit; a pass woken by another interrupt runs no handler and makes no IPI access |
| Notify.SpuriousEvents | src/common.h:81-89 | passes woken by anything but the kick only disable and restore interrupts, sleep and read the status register |
| Notify.SpuriousFacts | src/common.h:81-89 | passes woken by `n` wake-ups, none of them the kick, disable and restore interrupts `n` times each, sleep `n` times and never acknowledge the channel's bit |
| Notify.WaitForNotified | src/common.h:77-90 | the wait returns exactly when the flag was clear on entry or some wake-up is an IPI interrupt carrying the channel's bit; it returns at the first such wake-up, passes over all earlier ones, and leaves the flag set; otherwise it consumes every wake-up and stays in `wfi`; its accesses are the ones `WaitTrace` lists for that flag and those wake-ups |
| Notify.WaitTraceEvents | src/common.h:77-90 | every access of a wait is one the loop or the handler makes: disabling or restoring interrupts, `wfi`, reading the IPI status or acknowledging the channel's bit |
| Latency.SizesDouble | src/shmem_latency_demo.c:192 | the sizes visited by `for (s = 16; s <= 1024; s <<= 1)` are 16 to 1024, each doubling the last, so 7 sizes and 7000 messages; every size exceeds the header and fits the buffer |
| Latency.FirstMessageInRun | src/shmem_latency_demo.c:192-195 | each size's 1000 messages follow the previous size's and lie within the run |
| Latency.SamplesAt | src/shmem_latency_demo.c:229-232 | sample `i` of a size is counter reading `base + i`, widened from 32 to 64 bits |
| Latency.PlannedAt | src/shmem_latency_demo.c:195-204 | message `k` of a run is the block write of header `{k mod 1000 + 1, s - 8}` and `s` bytes to the TX window |
| Latency.Exchange | src/shmem_latency_demo.c:196-232 | one iteration ends by the first of the three checks that fails: short write, wait never returns, or echo length wrong; a short write leaves the flag alone; every other ending leaves it set; the accesses are the round's trace for that verdict |
| Latency.RoundMessages | src/shmem_latency_demo.c:199-204 | an iteration writes exactly one message, the planned one, whatever its verdict |
| Latency.RoundKicks | src/shmem_latency_demo.c:211-212 | an iteration kicks exactly once unless its write was short, and never frees the buffer or writes the control word |
| Latency.RoundShape | src/shmem_latency_demo.c:196-232 | an iteration starts with the counter reset and the message, then kicks unless the write was short; a hung wait ends in `wfi`; a bad echo ends with the block read and never stops the counter; a good one ends with the read, the stop and both counter reads |
| Latency.RoundPositions | src/shmem_latency_demo.c:196-212 | an iteration starts with the counter reset and then the message; that is its only block write, and a kick, if any, is its third access |
| Latency.RoundControl | src/shmem_latency_demo.c:196-232 | no access of an iteration writes the shared-memory control word |
| Measure.ExplainsUnique | src/shmem_latency_demo.c:195-233 | the first failing message and its failed check are unique, so an environment explains exactly one outcome |
| Measure.ProgressRound | src/shmem_latency_demo.c:195-233 | each iteration extends the trace by the next planned message, and by one kick unless its write was short, without freeing or writing the control word |
| Measure.ProgressAppend | src/shmem_latency_demo.c:195-233 | appending the accesses of message `n`, which write that message only, kick `dk` times and neither free nor write the control word, moves the progress on to `n + 1` messages and `n + dk` kicks |
| Measure.RunningStatFolds | src/shmem_latency_demo.c:193-194 | a size's statistic after `n` iterations is `STAT_INIT` updated with that size's first `n` readings in order |
| Measure.SizeReportFacts | src/shmem_latency_demo.c:235-242 | each printed report is for size `16 << j` and covers exactly 1000 samples with min <= max; its average is the exact mean of the size's readings in ns, between min and max |
| Measure.SizesArePowers | src/shmem_latency_demo.c:192 | size number `j` is `PKG_SIZE_MIN << j` |
| Measure.Iterate | src/shmem_latency_demo.c:196-232 | an iteration that goes through keeps the inner-loop state, one message further on; one that fails is the run's first failure and leaves the trace ending the way it failed |
| Measure.Record | src/shmem_latency_demo.c:229-232 | the readings of a successful iteration extend both statistics by that message's two readings |
| Measure.MeasureSize | src/shmem_latency_demo.c:195-233 | the inner loop either sends all 1000 messages of its size and ends with the statistics of all of them, or stops at the first failing message of that size |
| Measure.MeasureOneSize | src/shmem_latency_demo.c:192-243 | one pass of the size loop either reports its size with the statistics of all its readings, or stops within that size with the earlier sizes reported |
| Measure.MeasureSizes | src/shmem_latency_demo.c:192-243 | the size loop either reports every size or stops at the first failing message, having reported exactly the sizes before it |
| Measure.FinishedRun | src/shmem_latency_demo.c:245-254 | a run through all sizes wrote the 7000 planned messages, kicked 7001 times, and ends with the idle write, the last kick and the single free |
| Measure.AbortedRun | src/shmem_latency_demo.c:205-225 | a run stopped by a short write or a bad echo wrote every message up to the failing one, kicked once per full write, and ends with that message's last accesses and the free |
| Measure.StalledRun | src/shmem_latency_demo.c:214 | a run whose wait never returns ends asleep in `wfi` and never frees the buffer |
| Measure.RunOrder | src/shmem_latency_demo.c:196-212 | in a whole run every message comes right after the APU-to-RPU counter reset, and every kick right after a message, except the finish kick, which comes right after the idle write |
| Measure.OrderedRound | src/shmem_latency_demo.c:195-233 | appending an iteration to an ordered trace keeps it ordered |
| Measure.KickAfterSomeMessage | src/shmem_latency_demo.c:196-212 | in every run, whatever its outcome, each kick of the remote comes after some message was written |
| Measure.KickBeforeMessageIsNoRun | src/shmem_latency_demo.c:196-212 | the one trace start write, kick, message 0, echo read, free, whose counts match a bad echo of message 0, is no run, because it kicks before writing |
| Measure.ReturnCode | src/shmem_latency_demo.c:252-254 | the code as written: -1 only when the buffer cannot be allocated, no return when a wait hangs, and 0 for every other ending, the two failure exits included |
| Measure.IntendedReturnCodeSeparates | src/shmem_latency_demo.c:169 | the documented return code is 0 exactly for a finished run and -1 for every other ending that returns; it differs from the code as written exactly on a short write and a bad echo |
| Measure.ShortWriteReturnsZero | src/shmem_latency_demo.c:205-210 | when the first block write reports 0 bytes, the run's only explanation is a short write of message 0, yet the code as written returns 0 |
| Measure.MeasureShmemLatency | src/shmem_latency_demo.c:171-255 | the outcome is the one the environment explains; the code is -1 on allocation failure with no access; the function never returns when a wait hangs, and returns 0 otherwise; the trace writes exactly the planned messages up to the last one sent, kicks once per full write plus the finish, frees once unless it hangs, and ends as the outcome says; every message directly follows the reset of the APU-to-RPU counter and every kick directly follows a message or the finish write; every size reported is the true report of its readings, all of them when finished |
| Demo.InitialFlag | src/shmem_latency_demo.c:296-298 | clearing and then test-and-setting the flag leaves it set, so the first wait waits for a kick |
| Demo.Setup | src/shmem_latency_demo.c:300-315 | arming the IPI disables the channel's bit first and enables it last; it acknowledges a stale status bit, registers the handler and enables the vector, and both the acknowledge and the registration come before the vector is enabled |
| Demo.Teardown | src/shmem_latency_demo.c:320-324 | disarming the IPI first disables the bit that arming enabled; it disables every vector arming enabled, and unregisters the handler last, after its vector is disabled |
| Demo.ShmemLatencyDemo | src/shmem_latency_demo.c:257-328 | `-ENODEV` exactly when the shared-memory device or one of the three regions is missing, with no access at all; otherwise the trace is the arming, then the measurement's own run, then the disarming unless the measurement hangs; the run is a run of the outcome the environment explains; the code passed through is the measurement's |

## Findings

| source | as written | input that shows it | evidently intended | confidence | as-written member | corrected member |
|---|---|---|---|---|---|---|
| src/shmem_latency_demo.c:205-254 | the short-write and bad-echo exits set `ret = -1` and `goto out`, but `out:` returns 0 | the first `metal_io_block_write` returns 0 bytes: the run stops at message 0 and `measure_shmem_latency` returns 0 | return -1 from the two failure exits and 0 on success (for example `ret = 0` before `out:` and `return ret`), so that "0 on success, error code if failure" holds (line 169) | high, not executed | Measure.ShortWriteReturnsZero | Measure.IntendedReturnCodeSeparates |

`Measure.ReturnCode` is the code as written. `Measure.MeasureShmemLatency`
returns it, and `Demo.ShmemLatencyDemo` passes it through.
`Measure.IntendedReturnCode` is the corrected code. The corrected code can
tell a finished run from a failed one; the code as written cannot.

## Left out

- `main`, the other demos of the application and `print_demo` are outside
  this model, and so is the remote (RPU) side: the environment stands for
  everything the remote does.
- Console output is not modelled. The per-size reports are returned as data
  (`Measure.Report`), and the average is the value the format prints.
- The payload bytes are not modelled: the `0xA` fill of the buffer, and the
  copy into and out of shared memory beyond the header. A block write
  records its header and size; a block read records its size.
- libmetal's internals are not modelled: I/O regions, device lookup,
  allocation, the IRQ dispatcher, and `atomic_flag` beyond test-and-set and
  clear. Each one is a parameter or an event.
- Real concurrency and timing are not modelled. Interrupts are delivered only
  where the wait loop re-enables interrupts after `wfi`. A kick that arrives
  between the trigger write and the wait, with interrupts enabled, is
  modelled as arriving at the first `wfi`.
- Interrupts other than the IPI vector are modelled only as wake-ups of
  `wfi` that run no handler of this channel. Their own handlers and any
  effect they have on the client are not modelled.
- The counters run free in hardware; their readings are supplied by the
  environment.
- Notify.WaitForNotified: the list of wake-ups is finite, and running out
  of wake-ups stands for a wait that sleeps forever.
- Registers.CntOffset: only ids below 31 are modelled, since `1 << ID` on a C
  `int` is undefined from 31 on.
- Demo.ShmemLatencyDemo: `ttc_dev` and `ipi_dev` are assumed non-null,
  because the code passes them to `metal_device_io_region` unchecked, and
  dereferences them for their names and `irq_info`; only `shm_dev` is
  checked, so `Platform` has no field for a missing TTC or IPI device.
- Demo.ShmemLatencyDemo: the IRQ vector is a parameter, because the
  `(intptr_t)` cast of `irq_info` cannot be modelled. `ENODEV` is taken as
  19, its Linux value.
- Stats.StatInit: `~0UL` is taken as the 64-bit all-ones value, as on the
  64-bit APU.
- Measure.MeasureShmemLatency: the contract on the whole run states its
  counts, its ending and the order of its messages and kicks, but does not
  spell the trace out as the start write followed by each iteration's
  trace; `Latency.Exchange` states the exact trace of each iteration.
- The loops of `measure_shmem_latency` and the `goto out` are modelled as
  recursive methods and an explicit case split, with the same order of
  checks.
