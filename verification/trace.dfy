/**
 * The observable side effects of the client: every register access, block
 * transfer and interrupt-subsystem call is recorded as one `Event`, in program
 * order. The I/O regions themselves (libmetal's `metal_io_region`) are not
 * modelled; only the accesses made to them are.
 */
module Trace {
  import opened Ints

  /** The three I/O regions the demo opens. */
  datatype Region = Shm | Ipi | Ttc

  /** `struct msg_hdr_s`: the 8-byte header at the start of every message. */
  datatype Header = Header(index: u32, len: u32)

  const HEADER_SIZE: nat := 8

  datatype Event =
    | Write32(region: Region, offset: nat, value: bv32)     // metal_io_write32
    | Read32(region: Region, offset: nat)                   // metal_io_read32 (value supplied by the environment)
    | BlockWrite(region: Region, offset: nat, hdr: Header, size: nat) // metal_io_block_write of a whole message
    | BlockRead(region: Region, offset: nat, size: nat)     // metal_io_block_read
    | IrqSaveDisable                                        // metal_irq_save_disable
    | IrqRestoreEnable                                      // metal_irq_restore_enable
    | Wfi                                                   // wait_for_interrupt
    | IrqRegister(vector: int)                              // metal_irq_register
    | IrqEnable(vector: int)                                // metal_irq_enable
    | IrqDisable(vector: int)                               // metal_irq_disable
    | IrqUnregister(vector: int)                            // metal_irq_unregister
    | FreeBuffer                                            // metal_free_memory of the local buffer

  /** The messages written to shared memory, in the order they were written. */
  function Messages(t: seq<Event>): (m: seq<Event>)
    ensures |m| <= |t|
  {
    if |t| == 0 then []
    else Messages(t[..|t| - 1]) + (if t[|t| - 1].BlockWrite? then [t[|t| - 1]] else [])
  }

  /** The messages of a trace are block writes the trace made. */
  lemma {:induction false} MessagesFrom(t: seq<Event>)
    ensures forall e :: e in Messages(t) ==> e in t && e.BlockWrite?
    decreases |t|
  {
    if |t| > 0 {
      var t' := t[..|t| - 1];
      MessagesFrom(t');
      forall e | e in t'
        ensures e in t
      {
        var i :| 0 <= i < |t'| && t'[i] == e;
        assert t[i] == e;
      }
    }
  }

  /** How many times access `e` occurs in `t`. */
  function Count(t: seq<Event>, e: Event): nat
  {
    if |t| == 0 then 0 else Count(t[..|t| - 1], e) + (if t[|t| - 1] == e then 1 else 0)
  }

  /** Counting agrees with the multiplicity in the trace's multiset. */
  lemma {:induction false} CountIsMultiset(t: seq<Event>, e: Event)
    ensures Count(t, e) == multiset(t)[e]
    decreases |t|
  {
    if |t| > 0 {
      var t' := t[..|t| - 1];
      CountIsMultiset(t', e);
      assert t == t' + [t[|t| - 1]];
      assert multiset(t) == multiset(t') + multiset([t[|t| - 1]]);
    }
  }

  /** Counting distributes over concatenation of traces. */
  lemma {:induction false} CountAppend(t: seq<Event>, u: seq<Event>, e: Event)
    ensures Count(t + u, e) == Count(t, e) + Count(u, e)
    decreases |u|
  {
    if |u| == 0 {
      assert t + u == t;
    } else {
      var u' := u[..|u| - 1];
      assert (t + u)[..|t + u| - 1] == t + u';
      CountAppend(t, u', e);
    }
  }

  /** Filtering messages distributes over concatenation of traces. */
  lemma {:induction false} MessagesAppend(t: seq<Event>, u: seq<Event>)
    ensures Messages(t + u) == Messages(t) + Messages(u)
    decreases |u|
  {
    if |u| == 0 {
      assert t + u == t;
    } else {
      var u' := u[..|u| - 1];
      assert (t + u)[..|t + u| - 1] == t + u';
      MessagesAppend(t, u');
    }
  }

  /** A trace with no block write contributes no message. */
  lemma {:induction false} MessagesNone(u: seq<Event>)
    requires forall e :: e in u ==> !e.BlockWrite?
    ensures Messages(u) == []
    decreases |u|
  {
    if |u| > 0 {
      assert u[|u| - 1] in u;
      MessagesNone(u[..|u| - 1]);
    }
  }

  /** The last `n` elements of `a + b` are the last `n` of `b`. */
  lemma SuffixOfAppend<T>(a: seq<T>, b: seq<T>, n: nat)
    requires n <= |b|
    ensures (a + b)[|a + b| - n..] == b[|b| - n..]
    ensures n == |b| ==> (a + b)[|a + b| - n..] == b
  {
    var s, t := (a + b)[|a + b| - n..], b[|b| - n..];
    forall i | 0 <= i < n
      ensures s[i] == t[i]
    {
      assert s[i] == (a + b)[|a| + |b| - n + i];
    }
    assert b[|b| - |b|..] == b;
  }
}
