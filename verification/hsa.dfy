/**
 * The slice of the HSA/ROCr runtime that the copy benchmark drives, as an
 * abstract machine.  Every runtime call appends one event to a ghost log.
 * The rules the runtime sets for its callers are the preconditions of its
 * methods: free or write only live buffers, copy only between live buffers
 * large enough for the transfer, reuse a signal only when no copy is in
 * flight on it, arm a completion signal to 1 before the copy that uses it,
 * and wait only on a copy in flight.
 */
module Hsa {
  import opened Bytes

  type Handle = nat
  type AgentId = nat
  type PoolId = nat

  datatype Option<T> = None | Some(value: T)

  /** hsa_device_type_t. */
  datatype DeviceType = Cpu | Gpu | Dsp

  const HSA_STATUS_SUCCESS: int := 0

  /** A uint64_t profiling timestamp. */
  type Timestamp = t: nat | t < 0x1_0000_0000_0000_0000

  /** hsa_amd_profiling_async_copy_time_t: device start and end of one copy. */
  datatype CopyTime = CopyTime(start: Timestamp, end: Timestamp)

  /** An asynchronous copy in flight, completed when its signal is waited on; `id` numbers the copies issued. */
  datatype Transfer = Transfer(dst: Handle, src: Handle, size: nat, id: nat)

  /** One runtime call, as it appears in the log. */
  datatype Event =
    | PoolAllocate(pool: PoolId, buffer: Handle, size: nat)
    | PoolFree(buffer: Handle)
    | SignalCreate(signal: Handle, initial: int)
    | SignalStore(signal: Handle, value: int)
    | SignalDestroy(signal: Handle)
    | AllowAccess(agent: AgentId, buffer: Handle)
    | AsyncCopy(dst: Handle, dstAgent: AgentId, src: Handle, srcAgent: AgentId, size: nat, signal: Handle)
    | SignalWait(signal: Handle)
    | CopyTimeQuery(signal: Handle)
    | ProfilingEnable(enable: bool)
    | Failed(call: Event)

  /** A copy in flight reads and writes only live buffers large enough for it. */
  ghost predicate Fits(mem: map<Handle, seq<bv8>>, t: Transfer)
  {
    t.src in mem && t.dst in mem && t.size <= |mem[t.src]| && t.size <= |mem[t.dst]|
  }

  /** Overwriting a live buffer with bytes of the same length keeps every copy in flight fitting. */
  lemma OverwriteFits(mem: map<Handle, seq<bv8>>, pending: map<Handle, Transfer>, h: Handle, v: seq<bv8>)
    requires h in mem && |v| == |mem[h]|
    requires forall r :: r in pending ==> Fits(mem, pending[r])
    ensures forall r :: r in pending ==> Fits(mem[h := v], pending[r])
  {
    forall r | r in pending
      ensures Fits(mem[h := v], pending[r])
    {
      assert Fits(mem, pending[r]);
    }
  }

  /** Copies in flight are on live signals over live buffers; live handles are below `next`. */
  ghost predicate Consistent(mem: map<Handle, seq<bv8>>, signals: map<Handle, int>,
                             pending: map<Handle, Transfer>, next: Handle)
  {
    && (forall s {:trigger pending[s]} :: s in pending ==> s in signals && Fits(mem, pending[s]))
    && (forall h {:trigger mem[h]} :: h in mem ==> h < next)
    && (forall h {:trigger signals[h]} :: h in signals ==> h < next)
  }

  /** Completing the copy in flight on s, which lands `landed` in its destination, keeps the state consistent. */
  lemma WaitKeepsConsistent(mem: map<Handle, seq<bv8>>, signals: map<Handle, int>,
                            pending: map<Handle, Transfer>, next: Handle, s: Handle, landed: seq<bv8>)
    requires Consistent(mem, signals, pending, next) && s in pending
    requires pending[s].dst in mem && |landed| == |mem[pending[s].dst]|
    ensures Consistent(mem[pending[s].dst := landed], signals[s := signals[s] - 1], pending - {s}, next)
  {
    OverwriteFits(mem, pending, pending[s].dst, landed);
    assert mem[pending[s].dst := landed].Keys == mem.Keys;
    assert signals[s := signals[s] - 1].Keys == signals.Keys;
  }

  /** No copy in flight reads or writes buffer h. */
  ghost predicate Untouched(pending: map<Handle, Transfer>, h: Handle)
  {
    forall s :: s in pending ==> pending[s].src != h && pending[s].dst != h
  }

  /**
   * The HSA runtime as seen by the benchmark: live buffers with their bytes,
   * live signals with their values, the copies in flight (by signal), the
   * profiling timestamps of completed copies (by signal), and the next
   * handle to hand out.  The oracles stand for what the platform decides:
   * the status of each fallible call, the bytes a copy actually delivers
   * (XOR noise, zero for a faithful copy) and the device timestamps of each
   * copy.
   */
  class Runtime {
    ghost var log: seq<Event>
    var mem: map<Handle, seq<bv8>>
    var signals: map<Handle, int>
    var pending: map<Handle, Transfer>
    var times: map<Handle, CopyTime>
    var next: Handle
    var calls: nat
    var copies: nat
    const status: nat -> int
    const noise: (nat, nat) -> bv8
    const timing: nat -> CopyTime

    /** Copies in flight are on live signals over live buffers; live handles are below `next`. */
    ghost predicate Valid()
      reads this
    {
      Consistent(mem, signals, pending, next)
    }

    /** Copies deliver their source bytes exactly. */
    ghost predicate Faithful()
    {
      forall k, i :: noise(k, i) == 0
    }

    /** Every copy's device timestamps are in order. */
    ghost predicate OrderedTiming()
    {
      forall k :: timing(k).start <= timing(k).end
    }

    ghost function LastEvent(): Event
      reads this
      requires |log| > 0
    {
      log[|log| - 1]
    }

    /** The bytes copy number k delivers when its source holds `bytes`: byte i is flipped by noise(k, i). */
    function Delivered(k: nat, bytes: seq<bv8>): (d: seq<bv8>)
      ensures |d| == |bytes|
      ensures Faithful() ==> d == bytes
    {
      if bytes == [] then []
      else Delivered(k, bytes[..|bytes| - 1]) + [bytes[|bytes| - 1] ^ noise(k, |bytes| - 1)]
    }

    /** Every live buffer and signal handle is below `next`. */
    lemma LiveBelowNext(h: Handle)
      requires Valid()
      ensures h in mem ==> h < next
      ensures h in signals ==> h < next
    {
      if h in mem {
        assert mem[h] == mem[h];
      }
      if h in signals {
        assert signals[h] == signals[h];
      }
    }

    /** A handle at or above `next` is fresh: no live buffer or signal carries it and no copy in flight uses it. */
    lemma Unused(h: Handle)
      requires Valid() && h >= next
      ensures h !in mem && h !in signals && Untouched(pending, h)
    {
      LiveBelowNext(h);
      forall s | s in pending ensures pending[s].src != h && pending[s].dst != h {
        assert Fits(mem, pending[s]);
        LiveBelowNext(pending[s].src);
        LiveBelowNext(pending[s].dst);
      }
    }

    constructor (status: nat -> int, noise: (nat, nat) -> bv8, timing: nat -> CopyTime)
      ensures Valid()
      ensures this.status == status && this.noise == noise && this.timing == timing
      ensures log == [] && mem == map[] && signals == map[] && pending == map[] && times == map[]
      ensures calls == 0 && copies == 0
    {
      this.status, this.noise, this.timing := status, noise, timing;
      log := [];
      mem, signals, pending, times := map[], map[], map[], map[];
      next, calls, copies := 0, 0, 0;
    }

    /** hsa_amd_memory_pool_allocate: a fresh buffer; its initial bytes are taken to be zero. */
    method PoolAllocate(pool: PoolId, size: nat) returns (st: int, h: Handle)
      requires Valid()
      modifies this`calls, this`mem, this`next, this`log
      ensures Valid() && st == status(old(calls)) && calls == old(calls) + 1
      ensures h == old(next) && h !in old(mem) && h !in old(signals) && next >= old(next)
      ensures st == HSA_STATUS_SUCCESS ==>
        next == h + 1 && mem == old(mem)[h := Fill(0, size)] && log == old(log) + [Event.PoolAllocate(pool, h, size)]
      ensures st != HSA_STATUS_SUCCESS ==>
        mem == old(mem) && log == old(log) + [Failed(Event.PoolAllocate(pool, h, size))]
    {
      Unused(next);
      st := status(calls);
      calls := calls + 1;
      h := next;
      if st == HSA_STATUS_SUCCESS {
        mem := mem[h := Fill(0, size)];
        next := next + 1;
        log := log + [Event.PoolAllocate(pool, h, size)];
      } else {
        log := log + [Failed(Event.PoolAllocate(pool, h, size))];
      }
    }

    /** hsa_amd_memory_pool_free of a live buffer no copy in flight uses. */
    method PoolFree(h: Handle) returns (st: int)
      requires Valid()
      requires h in mem && Untouched(pending, h)
      modifies this`calls, this`mem, this`log
      ensures Valid() && st == status(old(calls)) && calls == old(calls) + 1
      ensures st == HSA_STATUS_SUCCESS ==> mem == old(mem) - {h} && log == old(log) + [Event.PoolFree(h)]
      ensures st != HSA_STATUS_SUCCESS ==> mem == old(mem) && log == old(log) + [Failed(Event.PoolFree(h))]
    {
      st := status(calls);
      calls := calls + 1;
      if st == HSA_STATUS_SUCCESS {
        forall s | s in pending ensures Fits(mem - {h}, pending[s]) {
          assert Fits(mem, pending[s]);
        }
        mem := mem - {h};
        log := log + [Event.PoolFree(h)];
      } else {
        log := log + [Failed(Event.PoolFree(h))];
      }
    }

    /** hsa_signal_create with an initial value. */
    method SignalCreate(initial: int) returns (st: int, s: Handle)
      requires Valid()
      modifies this`calls, this`signals, this`next, this`log
      ensures Valid() && st == status(old(calls)) && calls == old(calls) + 1
      ensures s == old(next) && s !in old(mem) && s !in old(signals) && next >= old(next)
      ensures st == HSA_STATUS_SUCCESS ==>
        next == s + 1 && signals == old(signals)[s := initial] && log == old(log) + [Event.SignalCreate(s, initial)]
      ensures st != HSA_STATUS_SUCCESS ==>
        signals == old(signals) && log == old(log) + [Failed(Event.SignalCreate(s, initial))]
    {
      Unused(next);
      st := status(calls);
      calls := calls + 1;
      s := next;
      if st == HSA_STATUS_SUCCESS {
        signals := signals[s := initial];
        next := next + 1;
        log := log + [Event.SignalCreate(s, initial)];
      } else {
        log := log + [Failed(Event.SignalCreate(s, initial))];
      }
    }

    /** hsa_signal_store_relaxed on a signal no copy is in flight on; it cannot fail. */
    method SignalStore(s: Handle, value: int)
      requires Valid()
      requires s in signals && s !in pending
      modifies this`signals, this`log
      ensures Valid()
      ensures signals == old(signals)[s := value]
      ensures log == old(log) + [Event.SignalStore(s, value)]
    {
      signals := signals[s := value];
      log := log + [Event.SignalStore(s, value)];
    }

    /** hsa_signal_destroy of a live signal no copy is in flight on; its timestamps go with it. */
    method SignalDestroy(s: Handle) returns (st: int)
      requires Valid()
      requires s in signals && s !in pending
      modifies this`calls, this`signals, this`times, this`log
      ensures Valid() && st == status(old(calls)) && calls == old(calls) + 1
      ensures st == HSA_STATUS_SUCCESS ==>
        signals == old(signals) - {s} && times == old(times) - {s} && log == old(log) + [Event.SignalDestroy(s)]
      ensures st != HSA_STATUS_SUCCESS ==>
        signals == old(signals) && times == old(times) && log == old(log) + [Failed(Event.SignalDestroy(s))]
    {
      st := status(calls);
      calls := calls + 1;
      if st == HSA_STATUS_SUCCESS {
        signals := signals - {s};
        times := times - {s};
        log := log + [Event.SignalDestroy(s)];
      } else {
        log := log + [Failed(Event.SignalDestroy(s))];
      }
    }

    /** hsa_amd_agents_allow_access for one agent on a live buffer. */
    method AllowAccess(agent: AgentId, h: Handle) returns (st: int)
      requires Valid()
      requires h in mem
      modifies this`calls, this`log
      ensures Valid() && st == status(old(calls)) && calls == old(calls) + 1
      ensures st == HSA_STATUS_SUCCESS ==> log == old(log) + [Event.AllowAccess(agent, h)]
      ensures st != HSA_STATUS_SUCCESS ==> log == old(log) + [Failed(Event.AllowAccess(agent, h))]
    {
      st := status(calls);
      calls := calls + 1;
      if st == HSA_STATUS_SUCCESS {
        log := log + [Event.AllowAccess(agent, h)];
      } else {
        log := log + [Failed(Event.AllowAccess(agent, h))];
      }
    }

    /**
     * hsa_amd_memory_async_copy: the copy is recorded as in flight on its
     * signal.  The signal must be armed to 1 and idle: completion takes it
     * to 0, which is what a wait for "below 1" observes, so a copy on an
     * unarmed signal could not be waited for.
     */
    method AsyncCopy(dst: Handle, dstAgent: AgentId, src: Handle, srcAgent: AgentId, size: nat,
                     s: Handle) returns (st: int)
      requires Valid()
      requires src in mem && dst in mem && size <= |mem[src]| && size <= |mem[dst]|
      requires s in signals && s !in pending && signals[s] == 1
      modifies this`calls, this`pending, this`copies, this`log
      ensures Valid() && st == status(old(calls)) && calls == old(calls) + 1
      ensures st == HSA_STATUS_SUCCESS ==>
        pending == old(pending)[s := Transfer(dst, src, size, old(copies))] && copies == old(copies) + 1
        && log == old(log) + [Event.AsyncCopy(dst, dstAgent, src, srcAgent, size, s)]
      ensures st != HSA_STATUS_SUCCESS ==>
        pending == old(pending) && copies == old(copies)
        && log == old(log) + [Failed(Event.AsyncCopy(dst, dstAgent, src, srcAgent, size, s))]
    {
      st := status(calls);
      calls := calls + 1;
      if st == HSA_STATUS_SUCCESS {
        pending := pending[s := Transfer(dst, src, size, copies)];
        copies := copies + 1;
        log := log + [Event.AsyncCopy(dst, dstAgent, src, srcAgent, size, s)];
      } else {
        log := log + [Failed(Event.AsyncCopy(dst, dstAgent, src, srcAgent, size, s))];
      }
    }

    /**
     * hsa_signal_wait_acquire until the value drops below 1: the copy in
     * flight on the signal completes, its bytes land in the destination,
     * the signal is decremented and the copy's timestamps are recorded.
     */
    method SignalWait(s: Handle)
      requires Valid()
      requires s in pending
      modifies this`mem, this`signals, this`times, this`pending, this`log
      ensures Valid()
      ensures var t := old(pending[s]);
        && mem == old(mem)[t.dst := Delivered(t.id, old(mem[t.src])[..t.size]) + old(mem[t.dst])[t.size..]]
        && times == old(times)[s := timing(t.id)]
      ensures signals == old(signals)[s := old(signals[s]) - 1]
      ensures pending == old(pending) - {s}
      ensures log == old(log) + [Event.SignalWait(s)]
    {
      var t := pending[s];
      assert Fits(mem, t);
      var landed := Delivered(t.id, mem[t.src][..t.size]) + mem[t.dst][t.size..];
      WaitKeepsConsistent(mem, signals, pending, next, s, landed);
      mem, signals, times, pending, log :=
        mem[t.dst := landed], signals[s := signals[s] - 1], times[s := timing(t.id)], pending - {s}, log + [Event.SignalWait(s)];
    }

    /**
     * memset on a host buffer no copy in flight uses: the host writes its
     * own memory directly, so no runtime call is made and nothing is logged.
     */
    method HostFill(h: Handle, value: bv8)
      requires Valid()
      requires h in mem && Untouched(pending, h)
      modifies this`mem
      ensures Valid()
      ensures mem == old(mem)[h := Fill(value, |old(mem[h])|)]
    {
      forall s | s in pending ensures Fits(mem[h := Fill(value, |mem[h]|)], pending[s]) {
        assert Fits(mem, pending[s]);
      }
      mem := mem[h := Fill(value, |mem[h]|)];
    }

    /** hsa_amd_profiling_get_async_copy_time on a signal whose copy has completed. */
    method CopyTimeQuery(s: Handle) returns (st: int, t: CopyTime)
      requires Valid()
      requires s in signals && s !in pending && s in times
      modifies this`calls, this`log
      ensures Valid() && st == status(old(calls)) && calls == old(calls) + 1
      ensures st == HSA_STATUS_SUCCESS ==> t == times[s] && log == old(log) + [Event.CopyTimeQuery(s)]
      ensures st != HSA_STATUS_SUCCESS ==> log == old(log) + [Failed(Event.CopyTimeQuery(s))]
    {
      st := status(calls);
      calls := calls + 1;
      if st == HSA_STATUS_SUCCESS {
        t := times[s];
        log := log + [Event.CopyTimeQuery(s)];
      } else {
        t := CopyTime(0, 0);
        log := log + [Failed(Event.CopyTimeQuery(s))];
      }
    }

    /** hsa_amd_profiling_async_copy_enable. */
    method ProfilingEnable(enable: bool) returns (st: int)
      requires Valid()
      modifies this`calls, this`log
      ensures Valid() && st == status(old(calls)) && calls == old(calls) + 1
      ensures st == HSA_STATUS_SUCCESS ==> log == old(log) + [Event.ProfilingEnable(enable)]
      ensures st != HSA_STATUS_SUCCESS ==> log == old(log) + [Failed(Event.ProfilingEnable(enable))]
    {
      st := status(calls);
      calls := calls + 1;
      if st == HSA_STATUS_SUCCESS {
        log := log + [Event.ProfilingEnable(enable)];
      } else {
        log := log + [Failed(Event.ProfilingEnable(enable))];
      }
    }
  }
}
