/**
 * The copy benchmark proper: the RocmBandwidthTest object driving the
 * runtime through provisioning of buffers and signals, the size sweep with
 * its timed iterations, host-side validation of the copied bytes, recording
 * of the per-size results, teardown, and the dispatch of transactions in Run.
 */
module Engine {
  import opened Hsa
  import opened Access
  import opened Timing
  import opened Bytes
  import opened Sweep

  /** req_type_ of a transaction. */
  datatype ReqType =
    | ReqInvalid
    | ReqRead
    | ReqWrite
    | ReqCopyBidir
    | ReqCopyUnidir
    | ReqCopyAllBidir
    | ReqCopyAllUnidir

  /** Where Run sends a transaction. */
  datatype Path = CopyPath | IoPath | NoPath

  /** The dispatch rule of Run: the four copy kinds to the copy benchmark, reads and writes to the I/O benchmark. */
  function Route(r: ReqType): (p: Path)
    ensures p == CopyPath <==> r in {ReqCopyBidir, ReqCopyUnidir, ReqCopyAllBidir, ReqCopyAllUnidir}
    ensures p == IoPath <==> r in {ReqRead, ReqWrite}
  {
    match r
    case ReqCopyBidir | ReqCopyUnidir | ReqCopyAllBidir | ReqCopyAllUnidir => CopyPath
    case ReqRead | ReqWrite => IoPath
    case ReqInvalid => NoPath
  }

  /** trans.copy: the two pools (by index into pool_list_ and by handle) and the copy's kind. */
  datatype CopyRequest = CopyRequest(bidir: bool, srcIdx: nat, dstIdx: nat,
                                     srcPool: PoolId, dstPool: PoolId, usesGpu: bool)

  /** async_trans_t: a request and the per-size results recorded for it. */
  datatype Transaction = Transaction(reqType: ReqType, copy: CopyRequest,
                                     cpuMinTime: seq<real>, cpuAvgTime: seq<real>,
                                     gpuMinTime: seq<real>, gpuAvgTime: seq<real>)

  /**
   * How a step of the benchmark ended: normally, at a runtime call whose
   * nonzero status ErrorCheck rejects, or at the "Inconsistent state"
   * assertion of the access policy.
   */
  datatype Outcome = Completed | Fatal(code: int) | InconsistentState

  /** The byte the host source buffer is seeded with, and the one the host destination is cleared to. */
  const VALIDATION_PATTERN: bv8 := 0x23
  const CLEAR_PATTERN: bv8 := 0x00

  /** One direction of a copy: the device (agent) index and the pool on each side. */
  datatype Endpoints = Endpoints(srcDev: nat, dstDev: nat, srcPool: PoolId, dstPool: PoolId)

  /** The reverse direction swaps source and destination. */
  function Reverse(e: Endpoints): Endpoints
  {
    Endpoints(e.dstDev, e.srcDev, e.dstPool, e.srcPool)
  }

  /** Every buffer and signal RunCopyBenchmark provisions. */
  datatype Buffers = Buffers(srcFwd: Handle, dstFwd: Handle, signalFwd: Handle,
                             srcRev: Handle, dstRev: Handle, signalRev: Handle,
                             validationSrc: Handle, validationDst: Handle, validationSignal: Handle)

  /** The handles were handed out in provisioning order, so those in use are pairwise distinct. */
  ghost predicate Increasing(b: Buffers, bidir: bool, validate: bool)
  {
    && b.srcFwd < b.dstFwd < b.signalFwd
    && (bidir ==> b.signalFwd < b.srcRev < b.dstRev < b.signalRev)
    && (validate ==> (if bidir then b.signalRev else b.signalFwd) < b.validationSrc < b.validationDst < b.validationSignal)
  }

  /** The buffers a transaction holds: the forward pair, the reverse pair iff bidirectional, the host pair iff validating. */
  function HeldKeys(b: Buffers, bidir: bool, validate: bool): set<Handle>
  {
    {b.srcFwd, b.dstFwd}
    + (if bidir then {b.srcRev, b.dstRev} else {})
    + (if validate then {b.validationSrc, b.validationDst} else {})
  }

  /** The signals a transaction holds. */
  function HeldSignals(b: Buffers, bidir: bool, validate: bool): set<Handle>
  {
    {b.signalFwd} + (if bidir then {b.signalRev} else {}) + (if validate then {b.validationSignal} else {})
  }

  /** Appending a concatenation appends its parts in turn. */
  lemma AppendAssoc(a: seq<Event>, b: seq<Event>, c: seq<Event>)
    ensures a + (b + c) == a + b + c
  {
  }

  /** The calls of one iteration, step by step, are the iteration's calls appended at once. */
  lemma IterationLog(l: seq<Event>, a: seq<Event>, r: seq<Event>, c: seq<Event>, w: seq<Event>, v: seq<Event>)
    ensures l + a + r + c + w + v == l + (a + r + c + w + v)
  {
    AppendAssoc(l, a + r + c + w, v);
    AppendAssoc(l, a + r + c, w);
    AppendAssoc(l, a + r, c);
    AppendAssoc(l, a, r);
  }

  /** The calls of k iterations that issue the same calls. */
  function Repeat(s: seq<Event>, k: nat): seq<Event>
  {
    if k == 0 then [] else Repeat(s, k - 1) + s
  }

  /** The runtime calls that release one direction: both buffers freed, then the signal destroyed. */
  function FreeEvents(src: Handle, dst: Handle, signal: Handle): seq<Event>
  {
    [Event.PoolFree(src), Event.PoolFree(dst), Event.SignalDestroy(signal)]
  }

  /** How many buffers and signals one copy transaction creates: three per direction and three for validation. */
  function HandleCount(bidir: bool, validate: bool): nat
  {
    3 + (if bidir then 3 else 0) + (if validate then 3 else 0)
  }

  /** The grants of a decision that allows the copy. */
  function Grants(d: Decision): seq<Grant>
  {
    if d.Allow? then d.grants else []
  }

  /** The per-size CPU results: the aggregate elapsed time of a size over the iteration count. */
  function CpuTimes(elapsed: nat -> real, count: nat, iterations: nat): (ts: seq<real>)
    requires iterations >= 1
    ensures |ts| == count
    ensures forall k :: 0 <= k < count ==> ts[k] == elapsed(k) / iterations as real
  {
    if count == 0 then [] else CpuTimes(elapsed, count - 1, iterations) + [elapsed(count - 1) / iterations as real]
  }

  /** The per-size GPU results: mean device span of a verified size, DBL_MAX for a size that failed validation. */
  function GpuTimes(verified: seq<bool>, spans: seq<seq<int>>, iterations: nat): (ts: seq<real>)
    requires |spans| == |verified| && iterations >= 1
    ensures |ts| == |verified|
    ensures forall k :: 0 <= k < |verified| ==>
      ts[k] == if verified[k] then Total(spans[k]) / iterations as real else DOUBLE_MAX
  {
    if verified == [] then []
    else
      var k := |verified| - 1;
      GpuTimes(verified[..k], spans[..k], iterations)
      + [if verified[k] then Total(spans[k]) / iterations as real else DOUBLE_MAX]
  }

  /** The result of one size: a CPU time pushed to both CPU series, and a GPU time to both GPU series when GPU timing is on. */
  function Record(t: Transaction, cpu: real, gpuOn: bool, gpu: real): Transaction
  {
    t.(cpuMinTime := t.cpuMinTime + [cpu], cpuAvgTime := t.cpuAvgTime + [cpu],
       gpuMinTime := if gpuOn then t.gpuMinTime + [gpu] else t.gpuMinTime,
       gpuAvgTime := if gpuOn then t.gpuAvgTime + [gpu] else t.gpuAvgTime)
  }

  /** The transaction after the sweep recorded its sizes one by one. */
  function Recorded(t0: Transaction, elapsed: nat -> real, verified: seq<bool>, spans: seq<seq<int>>,
                    iterations: nat, gpuOn: bool): Transaction
    requires |spans| == |verified| && iterations >= 1
  {
    if verified == [] then t0
    else
      var k := |verified| - 1;
      Record(Recorded(t0, elapsed, verified[..k], spans[..k], iterations, gpuOn),
             elapsed(k) / iterations as real, gpuOn,
             if verified[k] then Total(spans[k]) / iterations as real else DOUBLE_MAX)
  }

  /**
   * Result recording: the sweep appends one CPU entry per size to each CPU
   * series, min and mean alike, and, only when GPU timing is on, one GPU
   * entry per size to each GPU series; the request itself is untouched.
   */
  lemma {:induction false} RecordedSeries(t0: Transaction, elapsed: nat -> real, verified: seq<bool>,
                                          spans: seq<seq<int>>, iterations: nat, gpuOn: bool)
    requires |spans| == |verified| && iterations >= 1
    ensures var t := Recorded(t0, elapsed, verified, spans, iterations, gpuOn);
      && t.reqType == t0.reqType && t.copy == t0.copy
      && t.cpuMinTime == t0.cpuMinTime + CpuTimes(elapsed, |verified|, iterations)
      && t.cpuAvgTime == t0.cpuAvgTime + CpuTimes(elapsed, |verified|, iterations)
      && t.gpuMinTime == t0.gpuMinTime + (if gpuOn then GpuTimes(verified, spans, iterations) else [])
      && t.gpuAvgTime == t0.gpuAvgTime + (if gpuOn then GpuTimes(verified, spans, iterations) else [])
  {
    if verified != [] {
      var k := |verified| - 1;
      RecordedSeries(t0, elapsed, verified[..k], spans[..k], iterations, gpuOn);
      var cpu := CpuTimes(elapsed, k, iterations);
      var gpu := if gpuOn then GpuTimes(verified[..k], spans[..k], iterations) else [];
      assert t0.cpuMinTime + cpu + [elapsed(k) / iterations as real]
          == t0.cpuMinTime + (cpu + [elapsed(k) / iterations as real]);
      assert t0.cpuAvgTime + cpu + [elapsed(k) / iterations as real]
          == t0.cpuAvgTime + (cpu + [elapsed(k) / iterations as real]);
      if gpuOn {
        var g := if verified[k] then Total(spans[k]) / iterations as real else DOUBLE_MAX;
        assert t0.gpuMinTime + gpu + [g] == t0.gpuMinTime + (gpu + [g]);
        assert t0.gpuAvgTime + gpu + [g] == t0.gpuAvgTime + (gpu + [g]);
      }
    }
  }

  /** Recording one more size applies Record to the transaction recorded so far. */
  lemma RecordedSnoc(t0: Transaction, elapsed: nat -> real, verified: seq<bool>, spans: seq<seq<int>>,
                     iterations: nat, gpuOn: bool, ok: bool, s: seq<int>)
    requires |spans| == |verified| && iterations >= 1
    ensures Recorded(t0, elapsed, verified + [ok], spans + [s], iterations, gpuOn)
         == Record(Recorded(t0, elapsed, verified, spans, iterations, gpuOn),
                   elapsed(|verified|) / iterations as real, gpuOn,
                   if ok then Total(s) / iterations as real else DOUBLE_MAX)
  {
    assert (verified + [ok])[..|verified|] == verified;
    assert (spans + [s])[..|spans|] == spans;
  }

  /**
   * What the sweep measured: per size, whether validation passed and the
   * device spans collected; a verified size with GPU timing on has one span
   * per iteration; every span is a difference of 64-bit stamps, and not
   * negative when the stamps are in order.
   */
  ghost predicate Measured(verified: seq<bool>, spans: seq<seq<int>>, iterations: nat, gpuOn: bool, ordered: bool)
  {
    && |spans| == |verified|
    && (forall k :: 0 <= k < |verified| && verified[k] && gpuOn ==> |spans[k]| == iterations)
    && (forall k :: 0 <= k < |spans| ==> SpansInRange(spans[k], ordered))
  }

  ghost predicate SpansInRange(s: seq<int>, ordered: bool)
  {
    forall i :: 0 <= i < |s| ==> -UINT64_LIMIT < s[i] < UINT64_LIMIT && (ordered ==> s[i] >= 0)
  }

  /** Measuring one more size keeps the measurements well formed. */
  lemma MeasuredSnoc(verified: seq<bool>, spans: seq<seq<int>>, iterations: nat, gpuOn: bool, ordered: bool,
                     ok: bool, s: seq<int>)
    requires Measured(verified, spans, iterations, gpuOn, ordered)
    requires (ok && gpuOn ==> |s| == iterations) && SpansInRange(s, ordered)
    ensures Measured(verified + [ok], spans + [s], iterations, gpuOn, ordered)
  {
    var v, sp := verified + [ok], spans + [s];
    forall k | 0 <= k < |sp|
      ensures SpansInRange(sp[k], ordered)
    {
      if k < |spans| {
        assert sp[k] == spans[k];
      }
    }
  }

  /**
   * The sweep's outcome so far: well-formed measurements; every size passed
   * when passing is guaranteed; and the exit value is untouched unless a
   * size failed validation, which leaves it nonzero.
   */
  ghost predicate Progress(verified: seq<bool>, spans: seq<seq<int>>, iterations: nat, gpuOn: bool, ordered: bool,
                           allPass: bool, validate: bool, exitValue: int, exitValue0: int)
  {
    && Measured(verified, spans, iterations, gpuOn, ordered)
    && (allPass ==> forall k :: 0 <= k < |verified| ==> verified[k])
    && (if false in verified then validate && exitValue != 0 else exitValue == exitValue0)
  }

  /** One more size, with the outcome of its iterations. */
  lemma ProgressSnoc(verified: seq<bool>, spans: seq<seq<int>>, iterations: nat, gpuOn: bool, ordered: bool,
                     allPass: bool, validate: bool, exitValue: int, exitValue0: int, ok: bool, s: seq<int>, exitValue': int)
    requires Progress(verified, spans, iterations, gpuOn, ordered, allPass, validate, exitValue, exitValue0)
    requires (ok && gpuOn ==> |s| == iterations) && SpansInRange(s, ordered) && (allPass ==> ok)
    requires if ok then exitValue' == exitValue else validate && exitValue' != 0
    ensures Progress(verified + [ok], spans + [s], iterations, gpuOn, ordered, allPass, validate, exitValue', exitValue0)
  {
    MeasuredSnoc(verified, spans, iterations, gpuOn, ordered, ok, s);
    assert false in verified + [ok] <==> false in verified || !ok;
  }

  /** A sum of n spans each below 2^64 is at most n * 2^64. */
  lemma {:induction false} TotalBelow(s: seq<int>)
    requires SpansInRange(s, false)
    ensures Total(s) <= |s| as real * UINT64_LIMIT as real
  {
    if s != [] {
      TotalBelow(s[..|s| - 1]);
    }
  }

  /**
   * DBL_MAX marks exactly the sizes that failed validation: a measured mean
   * is at most 2^64, far below DBL_MAX; and with ordered stamps it is not
   * negative.
   */
  lemma GpuTimeUnavailableIffUnverified(verified: seq<bool>, spans: seq<seq<int>>, iterations: nat, ordered: bool, k: nat)
    requires iterations >= 1 && Measured(verified, spans, iterations, true, ordered)
    requires k < |verified|
    ensures GpuTimes(verified, spans, iterations)[k] == DOUBLE_MAX <==> !verified[k]
    ensures ordered && verified[k] ==> GpuTimes(verified, spans, iterations)[k] >= 0.0
  {
    if verified[k] {
      var s := spans[k];
      assert SpansInRange(s, ordered);
      TotalBelow(s);
      MeanAtMost(Total(s), iterations, UINT64_LIMIT as real);
      assert ordered ==> Total(s) >= 0.0;
    }
  }

  /** A total of at most n times u, spread over n >= 1 iterations, has a mean of at most u. */
  lemma MeanAtMost(total: real, n: nat, u: real)
    requires n >= 1 && total <= n as real * u
    ensures total / n as real <= u
  {
    var m := total / n as real;
    assert m * n as real == total;
    if m > u {
      assert m * n as real > u * n as real;
    }
  }


  /** The bandwidth test object: its configuration, the runtime it drives and its result state. */
  class BandwidthTest {
    const rt: Runtime
    const topo: Topology
    const validate: bool
    const printCpuTime: bool
    const numIteration: nat
    const sizeList: seq<nat>
    var err: int
    var exitValue: int
    var transList: seq<Transaction>

    constructor (rt: Runtime, topo: Topology, validate: bool, printCpuTime: bool, numIteration: nat,
                 sizeList: seq<nat>, transList: seq<Transaction>)
      ensures this.rt == rt && this.topo == topo && this.validate == validate
      ensures this.printCpuTime == printCpuTime && this.numIteration == numIteration
      ensures this.sizeList == sizeList && this.transList == transList
      ensures exitValue == 0
    {
      this.rt, this.topo, this.validate, this.printCpuTime := rt, topo, validate, printCpuTime;
      this.numIteration, this.sizeList, this.transList := numIteration, sizeList, transList;
      err := HSA_STATUS_SUCCESS;
      exitValue := 0;
    }

    /** A fatal outcome carries the rejected status, which is also left in err_, and the log ends at the failed call. */
    ghost predicate Failing(r: Outcome)
      reads this, rt
    {
      r.Fatal? ==> r.code != HSA_STATUS_SUCCESS && err == r.code && |rt.log| > 0 && rt.LastEvent().Failed?
    }

    /** Both ends of a copy are agents of the topology. */
    ghost predicate Endpoint(e: Endpoints)
    {
      topo.Valid() && e.srcDev < |topo.agents| && e.dstDev < |topo.agents|
    }

    /** The access policy for a copy from buffer src on agent srcDev to buffer dst on agent dstDev. */
    function Policy(srcDev: nat, src: Handle, dstDev: nat, dst: Handle): Decision
      requires topo.Valid() && srcDev < |topo.agents| && dstDev < |topo.agents|
    {
      AccessPolicy(AccessEntry(topo, srcDev, dstDev), topo.agents[srcDev], topo.agents[dstDev],
                   srcDev, src, dstDev, dst)
    }

    /** AcquireAccess: let one agent reach one buffer. */
    method AcquireAccess(agent: AgentId, h: Handle) returns (r: Outcome)
      requires rt.Valid() && h in rt.mem
      modifies this`err, rt
      ensures rt.Valid() && Failing(r) && !r.InconsistentState? && old(rt.log) <= rt.log
      ensures rt.mem == old(rt.mem) && rt.signals == old(rt.signals) && rt.pending == old(rt.pending)
      ensures rt.times == old(rt.times) && rt.copies == old(rt.copies) && rt.next == old(rt.next)
      ensures r.Completed? ==> rt.log == old(rt.log) + [Event.AllowAccess(agent, h)]
    {
      err := rt.AllowAccess(agent, h);
      if err != HSA_STATUS_SUCCESS {
        return Fatal(err);
      }
      r := Completed;
    }

    /**
     * AcquirePoolAcceses: issue, in order, the grants the access policy
     * decides, or stop at the "Inconsistent state" assertion.
     */
    method AcquirePoolAccesses(srcDev: nat, src: Handle, dstDev: nat, dst: Handle) returns (r: Outcome)
      requires topo.Valid() && srcDev < |topo.agents| && dstDev < |topo.agents|
      requires rt.Valid() && src in rt.mem && dst in rt.mem
      modifies this`err, rt
      ensures rt.Valid() && Failing(r) && old(rt.log) <= rt.log
      ensures rt.mem == old(rt.mem) && rt.signals == old(rt.signals) && rt.pending == old(rt.pending)
      ensures rt.times == old(rt.times) && rt.copies == old(rt.copies) && rt.next == old(rt.next)
      ensures r.InconsistentState? <==> Policy(srcDev, src, dstDev, dst).Inconsistent?
      ensures r.Completed? ==> rt.log == old(rt.log) + GrantEvents(Grants(Policy(srcDev, src, dstDev, dst)))
    {
      if AccessEntry(topo, srcDev, dstDev) == 2 {
        r := AcquireAccess(srcDev, dst);
        if r.Completed? {
          r := AcquireAccess(dstDev, src);
        }
        return;
      }
      if topo.agents[srcDev] == Cpu {
        r := AcquireAccess(dstDev, src);
        return;
      }
      if topo.agents[dstDev] == Cpu {
        r := AcquireAccess(srcDev, dst);
        return;
      }
      r := InconsistentState;
    }

    /** One hsa_amd_memory_pool_allocate followed by ErrorCheck: a fresh buffer. */
    method Allocate(pool: PoolId, size: nat) returns (r: Outcome, h: Handle)
      requires rt.Valid()
      modifies this`err, rt
      ensures rt.Valid() && Failing(r) && !r.InconsistentState? && old(rt.log) <= rt.log
      ensures rt.signals == old(rt.signals) && rt.pending == old(rt.pending) && rt.times == old(rt.times)
      ensures rt.copies == old(rt.copies)
      ensures r.Completed? ==>
        && h == old(rt.next) && rt.next == h + 1
        && rt.mem == old(rt.mem)[h := Fill(0, size)]
        && rt.log == old(rt.log) + [Event.PoolAllocate(pool, h, size)]
    {
      err, h := rt.PoolAllocate(pool, size);
      if err != HSA_STATUS_SUCCESS {
        return Fatal(err), h;
      }
      r := Completed;
    }

    /** One hsa_signal_create(1) followed by ErrorCheck: a fresh signal armed to 1. */
    method CreateSignal() returns (r: Outcome, s: Handle)
      requires rt.Valid()
      modifies this`err, rt
      ensures rt.Valid() && Failing(r) && !r.InconsistentState? && old(rt.log) <= rt.log
      ensures rt.mem == old(rt.mem) && rt.pending == old(rt.pending) && rt.times == old(rt.times)
      ensures rt.copies == old(rt.copies)
      ensures r.Completed? ==>
        && s == old(rt.next) && rt.next == s + 1
        && rt.signals == old(rt.signals)[s := 1]
        && rt.log == old(rt.log) + [Event.SignalCreate(s, 1)]
    {
      err, s := rt.SignalCreate(1);
      if err != HSA_STATUS_SUCCESS {
        return Fatal(err), s;
      }
      r := Completed;
    }

    /**
     * AllocateCopyBuffers: a source and a destination buffer of `size` bytes
     * in the two pools, a completion signal armed to 1, and the access grants
     * the policy decides between the two devices, in that order.
     */
    method AllocateCopyBuffers(size: nat, ep: Endpoints) returns (r: Outcome, src: Handle, dst: Handle, signal: Handle)
      requires Endpoint(ep) && rt.Valid()
      modifies this`err, rt
      ensures Failing(r) && old(rt.log) <= rt.log
      ensures r.InconsistentState? ==> Policy(ep.srcDev, src, ep.dstDev, dst).Inconsistent?
      ensures r.Completed? ==>
        && rt.Valid()
        && src == old(rt.next) && dst == src + 1 && signal == src + 2 && rt.next == src + 3
        && rt.mem == old(rt.mem)[src := Fill(0, size)][dst := Fill(0, size)]
        && rt.signals == old(rt.signals)[signal := 1]
        && rt.pending == old(rt.pending) && rt.times == old(rt.times) && rt.copies == old(rt.copies)
        && rt.log == old(rt.log) + CopyAllocEvents(ep, src, size)
    {
      dst, signal := 0, 0;
      r, src := Allocate(ep.srcPool, size);
      if !r.Completed? {
        return;
      }
      r, dst := Allocate(ep.dstPool, size);
      if !r.Completed? {
        return;
      }
      r, signal := CreateSignal();
      if !r.Completed? {
        return;
      }
      r := AcquirePoolAccesses(ep.srcDev, src, ep.dstDev, dst);
    }

    /**
     * AllocateHostBuffers: a host source buffer in the system pool, granted
     * to the device source buffer it seeds; a host destination buffer,
     * granted to the device destination buffer it is checked against; the
     * source seeded with 0x23 and the destination cleared to 0x00; and the
     * validation signal armed to 1.
     */
    method AllocateHostBuffers(size: nat, srcDev: nat, dstDev: nat, bufSrc: Handle, bufDst: Handle)
      returns (r: Outcome, src: Handle, dst: Handle, signal: Handle)
      requires topo.Valid() && srcDev < |topo.agents| && dstDev < |topo.agents|
      requires rt.Valid() && bufSrc in rt.mem && bufDst in rt.mem
      modifies this`err, rt
      ensures Failing(r) && old(rt.log) <= rt.log
      ensures r.InconsistentState? ==>
        Policy(topo.cpuIndex, src, srcDev, bufSrc).Inconsistent? || Policy(dstDev, bufDst, topo.cpuIndex, dst).Inconsistent?
      ensures r.Completed? ==>
        && rt.Valid()
        && src == old(rt.next) && dst == src + 1 && signal == src + 2 && rt.next == src + 3
        && rt.mem == old(rt.mem)[src := Fill(VALIDATION_PATTERN, size)][dst := Fill(CLEAR_PATTERN, size)]
        && rt.signals == old(rt.signals)[signal := 1]
        && rt.pending == old(rt.pending) && rt.times == old(rt.times) && rt.copies == old(rt.copies)
        && rt.log == old(rt.log) + HostAllocEvents(srcDev, dstDev, bufSrc, bufDst, src, size)
    {
      ghost var log0 := rt.log;
      signal := 0;
      r, src, dst := AllocateHostPair(size, srcDev, dstDev, bufSrc, bufDst);
      if !r.Completed? {
        return;
      }
      r, signal := CreateSignal();
      if r.Completed? {
        ghost var a, b := HostBufferEvents(true, srcDev, bufSrc, src, size), HostBufferEvents(false, dstDev, bufDst, dst, size);
        AppendAssoc(log0, a, b);
        AppendAssoc(log0, a + b, [Event.SignalCreate(signal, 1)]);
      }
    }

    /**
     * The two host buffers of AllocateHostBuffers, each with its access
     * grant, then memset: the source to the validation pattern, the
     * destination to the clear pattern.
     */
    method AllocateHostPair(size: nat, srcDev: nat, dstDev: nat, bufSrc: Handle, bufDst: Handle)
      returns (r: Outcome, src: Handle, dst: Handle)
      requires topo.Valid() && srcDev < |topo.agents| && dstDev < |topo.agents|
      requires rt.Valid() && bufSrc in rt.mem && bufDst in rt.mem
      modifies this`err, rt
      ensures Failing(r) && old(rt.log) <= rt.log
      ensures r.InconsistentState? ==>
        Policy(topo.cpuIndex, src, srcDev, bufSrc).Inconsistent? || Policy(dstDev, bufDst, topo.cpuIndex, dst).Inconsistent?
      ensures r.Completed? ==>
        && rt.Valid()
        && src == old(rt.next) && dst == src + 1 && rt.next == src + 2
        && rt.mem == old(rt.mem)[src := Fill(VALIDATION_PATTERN, size)][dst := Fill(CLEAR_PATTERN, size)]
        && rt.signals == old(rt.signals) && rt.pending == old(rt.pending) && rt.times == old(rt.times)
        && rt.copies == old(rt.copies)
        && rt.log == old(rt.log) + HostBufferEvents(true, srcDev, bufSrc, src, size)
                     + HostBufferEvents(false, dstDev, bufDst, dst, size)
    {
      rt.Unused(rt.next);
      rt.Unused(rt.next + 1);
      dst := 0;
      r, src := AllocateHostBuffer(size, true, srcDev, bufSrc);
      if !r.Completed? {
        return;
      }
      r, dst := AllocateHostBuffer(size, false, dstDev, bufDst);
      if !r.Completed? {
        return;
      }
      rt.HostFill(src, VALIDATION_PATTERN);
      rt.HostFill(dst, CLEAR_PATTERN);
    }

    /**
     * One host buffer of AllocateHostBuffers: allocated in the system pool,
     * then the grants between it and the device buffer it is copied from
     * (hostIsSource) or into.
     */
    method AllocateHostBuffer(size: nat, hostIsSource: bool, dev: nat, buf: Handle) returns (r: Outcome, h: Handle)
      requires topo.Valid() && dev < |topo.agents|
      requires rt.Valid() && buf in rt.mem
      modifies this`err, rt
      ensures Failing(r) && old(rt.log) <= rt.log
      ensures r.InconsistentState? ==>
        if hostIsSource then Policy(topo.cpuIndex, h, dev, buf).Inconsistent?
        else Policy(dev, buf, topo.cpuIndex, h).Inconsistent?
      ensures r.Completed? ==>
        && rt.Valid() && h == old(rt.next) && rt.next == h + 1
        && rt.mem == old(rt.mem)[h := Fill(0, size)]
        && rt.signals == old(rt.signals) && rt.pending == old(rt.pending) && rt.times == old(rt.times)
        && rt.copies == old(rt.copies)
        && rt.log == old(rt.log) + HostBufferEvents(hostIsSource, dev, buf, h, size)
    {
      r, h := Allocate(topo.sysPool, size);
      if !r.Completed? {
        return;
      }
      if hostIsSource {
        r := AcquirePoolAccesses(topo.cpuIndex, h, dev, buf);
      } else {
        r := AcquirePoolAccesses(dev, buf, topo.cpuIndex, h);
      }
    }

    /**
     * ReleaseBuffers: free the forward pair and destroy its signal, then
     * likewise the reverse ones when bidirectional.
     */
    method ReleaseBuffers(bidir: bool, srcFwd: Handle, srcRev: Handle, dstFwd: Handle, dstRev: Handle,
                          signalFwd: Handle, signalRev: Handle) returns (r: Outcome)
      requires rt.Valid()
      requires srcFwd in rt.mem && dstFwd in rt.mem && srcFwd != dstFwd && signalFwd in rt.signals
      requires Untouched(rt.pending, srcFwd) && Untouched(rt.pending, dstFwd) && signalFwd !in rt.pending
      requires bidir ==> srcRev in rt.mem && dstRev in rt.mem && signalRev in rt.signals
      requires bidir ==> Untouched(rt.pending, srcRev) && Untouched(rt.pending, dstRev) && signalRev !in rt.pending
      requires bidir ==> srcRev != dstRev && srcRev !in {srcFwd, dstFwd} && dstRev !in {srcFwd, dstFwd}
      requires bidir ==> signalRev != signalFwd
      modifies this`err, rt`calls, rt`mem, rt`signals, rt`times, rt`log
      ensures Failing(r) && !r.InconsistentState? && old(rt.log) <= rt.log && rt.next == old(rt.next)
      ensures r.Completed? ==>
        && rt.Valid() && rt.pending == old(rt.pending)
        && rt.mem == old(rt.mem) - {srcFwd, dstFwd} - (if bidir then {srcRev, dstRev} else {})
        && rt.signals == old(rt.signals) - {signalFwd} - (if bidir then {signalRev} else {})
        && rt.times == old(rt.times) - {signalFwd} - (if bidir then {signalRev} else {})
        && rt.log == old(rt.log) + FreeEvents(srcFwd, dstFwd, signalFwd)
                     + (if bidir then FreeEvents(srcRev, dstRev, signalRev) else [])
    {
      r := ReleaseDirection(srcFwd, dstFwd, signalFwd);
      if r.Completed? && bidir {
        r := ReleaseDirection(srcRev, dstRev, signalRev);
      }
    }

    /** The three releases of one direction of ReleaseBuffers, each followed by ErrorCheck. */
    method ReleaseDirection(src: Handle, dst: Handle, signal: Handle) returns (r: Outcome)
      requires rt.Valid()
      requires src in rt.mem && dst in rt.mem && src != dst && signal in rt.signals
      requires Untouched(rt.pending, src) && Untouched(rt.pending, dst) && signal !in rt.pending
      modifies this`err, rt`calls, rt`mem, rt`signals, rt`times, rt`log
      ensures Failing(r) && !r.InconsistentState? && old(rt.log) <= rt.log
      ensures rt.next == old(rt.next) && rt.pending == old(rt.pending)
      ensures r.Completed? ==>
        && rt.Valid()
        && rt.mem == old(rt.mem) - {src, dst}
        && rt.signals == old(rt.signals) - {signal}
        && rt.times == old(rt.times) - {signal}
        && rt.log == old(rt.log) + FreeEvents(src, dst, signal)
    {
      err := rt.PoolFree(src);
      if err != HSA_STATUS_SUCCESS {
        return Fatal(err);
      }
      err := rt.PoolFree(dst);
      if err != HSA_STATUS_SUCCESS {
        return Fatal(err);
      }
      err := rt.SignalDestroy(signal);
      if err != HSA_STATUS_SUCCESS {
        return Fatal(err);
      }
      r := Completed;
    }

    /** hsa_amd_memory_async_copy followed by ErrorCheck: the copy is in flight on its signal. */
    method IssueCopy(dst: Handle, dstAgent: AgentId, src: Handle, srcAgent: AgentId, size: nat, s: Handle)
      returns (r: Outcome)
      requires rt.Valid()
      requires src in rt.mem && dst in rt.mem && size <= |rt.mem[src]| && size <= |rt.mem[dst]|
      requires s in rt.signals && s !in rt.pending && rt.signals[s] == 1
      modifies this`err, rt
      ensures rt.Valid() && Failing(r) && !r.InconsistentState? && old(rt.log) <= rt.log
      ensures rt.mem == old(rt.mem) && rt.signals == old(rt.signals) && rt.times == old(rt.times)
      ensures rt.next == old(rt.next)
      ensures r.Completed? ==>
        && rt.pending == old(rt.pending)[s := Transfer(dst, src, size, old(rt.copies))]
        && rt.copies == old(rt.copies) + 1
        && rt.log == old(rt.log) + [Event.AsyncCopy(dst, dstAgent, src, srcAgent, size, s)]
    {
      err := rt.AsyncCopy(dst, dstAgent, src, srcAgent, size, s);
      if err != HSA_STATUS_SUCCESS {
        return Fatal(err);
      }
      r := Completed;
    }

    /**
     * copy_buffer: issue one copy on an armed signal and wait for it to
     * complete; the destination's first `size` bytes then hold what the
     * copy delivered, and the rest is as it was.
     */
    method CopyBuffer(dst: Handle, dstAgent: AgentId, src: Handle, srcAgent: AgentId, size: nat, signal: Handle)
      returns (r: Outcome)
      requires rt.Valid()
      requires src in rt.mem && dst in rt.mem && size <= |rt.mem[src]| && size <= |rt.mem[dst]|
      requires signal in rt.signals && signal !in rt.pending && rt.signals[signal] == 1
      modifies this`err, rt
      ensures Failing(r) && !r.InconsistentState? && old(rt.log) <= rt.log && rt.next == old(rt.next)
      ensures r.Completed? ==>
        && rt.Valid()
        && rt.mem == old(rt.mem)[dst := rt.Delivered(old(rt.copies), old(rt.mem[src])[..size]) + old(rt.mem[dst])[size..]]
        && rt.signals == old(rt.signals)[signal := 0]
        && rt.times == old(rt.times)[signal := rt.timing(old(rt.copies))]
        && rt.pending == old(rt.pending) && rt.copies == old(rt.copies) + 1
        && rt.log == old(rt.log) + [Event.AsyncCopy(dst, dstAgent, src, srcAgent, size, signal), Event.SignalWait(signal)]
    {
      r := IssueCopy(dst, dstAgent, src, srcAgent, size, signal);
      if !r.Completed? {
        return;
      }
      rt.SignalWait(signal);
    }

    /**
     * GetGpuCopyTime: the device span of the forward copy, or of both
     * copies together when bidirectional, from the profiling timestamps.
     */
    method GetGpuCopyTime(bidir: bool, signalFwd: Handle, signalRev: Handle) returns (r: Outcome, span: int)
      requires rt.Valid()
      requires signalFwd in rt.signals && signalFwd !in rt.pending && signalFwd in rt.times
      requires bidir ==> signalRev in rt.signals && signalRev !in rt.pending && signalRev in rt.times
      modifies this`err, rt`calls, rt`log
      ensures Failing(r) && !r.InconsistentState? && old(rt.log) <= rt.log
      ensures r.Completed? ==>
        span == DeviceSpan(bidir, rt.times[signalFwd], if bidir then rt.times[signalRev] else rt.times[signalFwd])
      ensures r.Completed? ==>
        rt.log == old(rt.log) + [Event.CopyTimeQuery(signalFwd)] + (if bidir then [Event.CopyTimeQuery(signalRev)] else [])
    {
      span := 0;
      var fwd;
      err, fwd := rt.CopyTimeQuery(signalFwd);
      if err != HSA_STATUS_SUCCESS {
        return Fatal(err), span;
      }
      if !bidir {
        return Completed, DeviceSpan(false, fwd, fwd);
      }
      var rev;
      err, rev := rt.CopyTimeQuery(signalRev);
      if err != HSA_STATUS_SUCCESS {
        return Fatal(err), span;
      }
      r, span := Completed, DeviceSpan(true, fwd, rev);
    }


    /** GPU copy times are collected when CPU timing was not asked for and the transaction involves a GPU. */
    function GpuOn(usesGpu: bool): bool
    {
      !printCpuTime && usesGpu
    }

    /**
     * The buffers and signals one transaction holds, as a layout of the
     * runtime's memory and signal set: those from before plus exactly the
     * ones the transaction provisioned, each buffer of the largest size; the
     * host source holds the seed pattern, and so does the device source when
     * copies are faithful.
     */
    ghost predicate Layout(mem: map<Handle, seq<bv8>>, sigKeys: set<Handle>, faithful: bool,
                           b: Buffers, bidir: bool, maxSize: nat, keys0: set<Handle>, sigs0: set<Handle>)
    {
      && Increasing(b, bidir, validate)
      && keys0 !! HeldKeys(b, bidir, validate) && sigs0 !! HeldSignals(b, bidir, validate)
      && mem.Keys == keys0 + HeldKeys(b, bidir, validate)
      && sigKeys == sigs0 + HeldSignals(b, bidir, validate)
      && |mem[b.srcFwd]| == maxSize && |mem[b.dstFwd]| == maxSize
      && (bidir ==> |mem[b.srcRev]| == maxSize && |mem[b.dstRev]| == maxSize)
      && (validate ==> |mem[b.validationDst]| == maxSize)
      && (validate ==> mem[b.validationSrc] == Fill(VALIDATION_PATTERN, maxSize))
      && (validate && faithful ==> mem[b.srcFwd] == Fill(VALIDATION_PATTERN, maxSize))
    }

    /** The state the size sweep keeps between iterations: no copy in flight, and the transaction's layout. */
    ghost predicate Provisioned(b: Buffers, bidir: bool, maxSize: nat, keys0: set<Handle>, sigs0: set<Handle>)
      reads rt
    {
      && rt.Valid() && rt.pending == map[]
      && Layout(rt.mem, rt.signals.Keys, rt.Faithful(), b, bidir, maxSize, keys0, sigs0)
    }

    /** Writing a full-size buffer over one of the destinations keeps the layout. */
    lemma Overwrite(mem: map<Handle, seq<bv8>>, sigKeys: set<Handle>, faithful: bool, b: Buffers, bidir: bool,
                    maxSize: nat, keys0: set<Handle>, sigs0: set<Handle>, h: Handle, v: seq<bv8>)
      requires Layout(mem, sigKeys, faithful, b, bidir, maxSize, keys0, sigs0) && |v| == maxSize
      requires h == b.dstFwd || (bidir && h == b.dstRev) || (validate && h == b.validationDst)
      ensures Layout(mem[h := v], sigKeys, faithful, b, bidir, maxSize, keys0, sigs0)
    {
      assert mem[h := v].Keys == mem.Keys;
    }

    /** The copy buffers and signals of one direction, or both, are live, distinct, and hold at least n bytes. */
    ghost predicate Holds(b: Buffers, bidir: bool, n: nat)
      reads rt
    {
      && Increasing(b, bidir, validate)
      && b.srcFwd in rt.mem && b.dstFwd in rt.mem && n <= |rt.mem[b.srcFwd]| && n <= |rt.mem[b.dstFwd]|
      && b.signalFwd in rt.signals
      && (bidir ==> b.srcRev in rt.mem && b.dstRev in rt.mem && n <= |rt.mem[b.srcRev]| && n <= |rt.mem[b.dstRev]|)
      && (bidir ==> b.signalRev in rt.signals)
    }

    /** The signals of an iteration whose forward copy was copy number id carry those copies' timestamps. */
    ghost predicate Timed(b: Buffers, bidir: bool, id: nat)
      reads rt
    {
      && b.signalFwd in rt.times && rt.times[b.signalFwd] == rt.timing(id)
      && (bidir ==> b.signalRev in rt.times && rt.times[b.signalRev] == rt.timing(id + 1))
    }

    /** What the sweep keeps is enough for an iteration of any size up to the provisioned one. */
    lemma ProvisionedHolds(b: Buffers, bidir: bool, maxSize: nat, keys0: set<Handle>, sigs0: set<Handle>, n: nat)
      requires Provisioned(b, bidir, maxSize, keys0, sigs0) && n <= maxSize
      ensures Holds(b, bidir, n)
    {
    }

    /** The copies in flight after the launch of an iteration: forward as copy number id, reverse as the next one. */
    function Launched(n: nat, bidir: bool, b: Buffers, id: nat): map<Handle, Transfer>
    {
      if bidir then
        map[b.signalFwd := Transfer(b.dstFwd, b.srcFwd, n, id), b.signalRev := Transfer(b.dstRev, b.srcRev, n, id + 1)]
      else
        map[b.signalFwd := Transfer(b.dstFwd, b.srcFwd, n, id)]
    }

    /** The stores that arm an iteration's signals: forward, then reverse. */
    function ArmEvents(bidir: bool, b: Buffers): seq<Event>
    {
      [Event.SignalStore(b.signalFwd, 1)] + (if bidir then [Event.SignalStore(b.signalRev, 1)] else [])
    }

    /** The copies an iteration issues: forward, then reverse, each on its own signal. */
    function CopyEvents(n: nat, ep: Endpoints, bidir: bool, b: Buffers): seq<Event>
    {
      [Event.AsyncCopy(b.dstFwd, ep.dstDev, b.srcFwd, ep.srcDev, n, b.signalFwd)]
      + (if bidir then [Event.AsyncCopy(b.dstRev, ep.srcDev, b.srcRev, ep.dstDev, n, b.signalRev)] else [])
    }

    /** The waits of an iteration: forward, then reverse. */
    function WaitEvents(bidir: bool, b: Buffers): seq<Event>
    {
      [Event.SignalWait(b.signalFwd)] + (if bidir then [Event.SignalWait(b.signalRev)] else [])
    }

    /** The grants re-established before each copy when validating. */
    function RegrantEvents(ep: Endpoints, b: Buffers): seq<Event>
      requires Endpoint(ep)
    {
      if validate then GrantEvents(Grants(Policy(ep.srcDev, b.srcFwd, ep.dstDev, b.dstFwd))) else []
    }

    /** Arm the forward signal, and the reverse one when bidirectional, to 1. */
    method ArmSignals(bidir: bool, b: Buffers)
      requires rt.Valid() && b.signalFwd in rt.signals && b.signalFwd !in rt.pending
      requires bidir ==> b.signalRev in rt.signals && b.signalRev !in rt.pending
      modifies rt
      ensures rt.Valid() && rt.mem == old(rt.mem) && rt.pending == old(rt.pending) && rt.times == old(rt.times)
      ensures rt.copies == old(rt.copies) && rt.next == old(rt.next)
      ensures rt.signals == if bidir then old(rt.signals)[b.signalFwd := 1][b.signalRev := 1]
                            else old(rt.signals)[b.signalFwd := 1]
      ensures rt.log == old(rt.log) + ArmEvents(bidir, b)
    {
      rt.SignalStore(b.signalFwd, 1);
      if bidir {
        rt.SignalStore(b.signalRev, 1);
      }
    }

    /** Issue the forward copy of n bytes, and the reverse one when bidirectional, each on its armed signal. */
    method IssueCopies(n: nat, ep: Endpoints, bidir: bool, b: Buffers) returns (r: Outcome)
      requires rt.Valid() && rt.pending == map[] && Holds(b, bidir, n)
      requires rt.signals[b.signalFwd] == 1 && (bidir ==> rt.signals[b.signalRev] == 1)
      modifies this`err, rt
      ensures Failing(r) && !r.InconsistentState? && old(rt.log) <= rt.log && rt.next == old(rt.next)
      ensures r.Completed? ==>
        && rt.Valid() && rt.mem == old(rt.mem) && rt.times == old(rt.times) && rt.signals == old(rt.signals)
        && rt.pending == Launched(n, bidir, b, old(rt.copies))
        && rt.copies == old(rt.copies) + (if bidir then 2 else 1)
        && rt.log == old(rt.log) + CopyEvents(n, ep, bidir, b)
    {
      r := IssueCopy(b.dstFwd, ep.dstDev, b.srcFwd, ep.srcDev, n, b.signalFwd);
      if !r.Completed? || !bidir {
        return;
      }
      r := IssueCopy(b.dstRev, ep.srcDev, b.srcRev, ep.dstDev, n, b.signalRev);
    }

    /**
     * The launch part of one iteration: arm the signals to 1, re-grant
     * access between the copy buffers when validating, and issue the copies.
     */
    method Launch(n: nat, ep: Endpoints, bidir: bool, b: Buffers) returns (r: Outcome)
      requires Endpoint(ep) && rt.Valid() && rt.pending == map[] && Holds(b, bidir, n)
      modifies this`err, rt
      ensures Failing(r) && old(rt.log) <= rt.log && rt.next == old(rt.next)
      ensures r.InconsistentState? ==> validate && Policy(ep.srcDev, b.srcFwd, ep.dstDev, b.dstFwd).Inconsistent?
      ensures r.Completed? ==>
        && rt.Valid() && rt.mem == old(rt.mem) && rt.times == old(rt.times)
        && rt.signals.Keys == old(rt.signals).Keys
        && rt.pending == Launched(n, bidir, b, old(rt.copies))
        && rt.copies == old(rt.copies) + (if bidir then 2 else 1)
        && rt.log == old(rt.log) + ArmEvents(bidir, b) + RegrantEvents(ep, b) + CopyEvents(n, ep, bidir, b)
    {
      ArmSignals(bidir, b);
      if validate {
        r := AcquirePoolAccesses(ep.srcDev, b.srcFwd, ep.dstDev, b.dstFwd);
        if !r.Completed? {
          return;
        }
      }
      r := IssueCopies(n, ep, bidir, b);
    }

    /**
     * Wait for the forward copy, then for the reverse one when
     * bidirectional: each destination's first n bytes hold what its copy
     * delivered, and each copy's timestamps are recorded on its signal.
     */
    method AwaitCopies(n: nat, bidir: bool, b: Buffers, ghost id: nat)
      requires rt.Valid() && Holds(b, bidir, n) && rt.pending == Launched(n, bidir, b, id)
      modifies rt
      ensures rt.Valid() && rt.pending == map[] && rt.next == old(rt.next) && rt.copies == old(rt.copies)
      ensures rt.signals.Keys == old(rt.signals).Keys
      ensures var m := old(rt.mem)[b.dstFwd := rt.Delivered(id, old(rt.mem[b.srcFwd])[..n]) + old(rt.mem[b.dstFwd])[n..]];
        rt.mem == if bidir then m[b.dstRev := rt.Delivered(id + 1, old(rt.mem[b.srcRev])[..n]) + old(rt.mem[b.dstRev])[n..]]
                  else m
      ensures rt.times == if bidir then old(rt.times)[b.signalFwd := rt.timing(id)][b.signalRev := rt.timing(id + 1)]
                          else old(rt.times)[b.signalFwd := rt.timing(id)]
      ensures rt.log == old(rt.log) + WaitEvents(bidir, b)
    {
      rt.SignalWait(b.signalFwd);
      if bidir {
        rt.SignalWait(b.signalRev);
      }
    }

    /**
     * The waiting part of one iteration, seen from the sweep: once both
     * copies have landed, the sweep's state is back, and the forward
     * destination holds what the forward copy delivered.
     */
    method Land(n: nat, bidir: bool, b: Buffers, ghost id: nat, ghost maxSize: nat, ghost keys0: set<Handle>,
                ghost sigs0: set<Handle>)
      requires rt.Valid() && n <= maxSize && rt.pending == Launched(n, bidir, b, id)
      requires Layout(rt.mem, rt.signals.Keys, rt.Faithful(), b, bidir, maxSize, keys0, sigs0)
      modifies rt
      ensures Provisioned(b, bidir, maxSize, keys0, sigs0) && rt.next == old(rt.next) && rt.copies == old(rt.copies)
      ensures rt.mem[b.dstFwd][..n] == rt.Delivered(id, old(rt.mem[b.srcFwd])[..n])
      ensures rt.mem[b.srcFwd] == old(rt.mem[b.srcFwd]) && Timed(b, bidir, id)
      ensures rt.log == old(rt.log) + WaitEvents(bidir, b)
    {
      ghost var mem0 := rt.mem;
      AwaitCopies(n, bidir, b, id);
      ghost var m: map<Handle, seq<bv8>> := mem0[b.dstFwd := rt.Delivered(id, mem0[b.srcFwd][..n]) + mem0[b.dstFwd][n..]];
      Overwrite(mem0, rt.signals.Keys, rt.Faithful(), b, bidir, maxSize, keys0, sigs0, b.dstFwd, m[b.dstFwd]);
      if bidir {
        Overwrite(m, rt.signals.Keys, rt.Faithful(), b, bidir, maxSize, keys0, sigs0, b.dstRev,
                  rt.Delivered(id + 1, mem0[b.srcRev][..n]) + mem0[b.dstRev][n..]);
      }
    }

    /**
     * The copy part of one iteration: launch, then wait.  The sweep's state
     * is kept, and the forward destination now holds, in its first n bytes,
     * what this iteration's forward copy delivered from the forward source.
     */
    method TransferOnce(n: nat, ep: Endpoints, bidir: bool, b: Buffers, ghost maxSize: nat, ghost keys0: set<Handle>,
                        ghost sigs0: set<Handle>) returns (r: Outcome)
      requires Endpoint(ep) && Provisioned(b, bidir, maxSize, keys0, sigs0) && n <= maxSize
      modifies this`err, rt
      ensures Failing(r) && old(rt.log) <= rt.log && rt.next == old(rt.next)
      ensures r.InconsistentState? ==> validate && Policy(ep.srcDev, b.srcFwd, ep.dstDev, b.dstFwd).Inconsistent?
      ensures r.Completed? ==> Provisioned(b, bidir, maxSize, keys0, sigs0)
      ensures r.Completed? ==>
        && Timed(b, bidir, old(rt.copies))
        && rt.log == old(rt.log) + ArmEvents(bidir, b) + RegrantEvents(ep, b) + CopyEvents(n, ep, bidir, b)
                    + WaitEvents(bidir, b)
      ensures r.Completed? ==>
        && rt.mem[b.srcFwd] == old(rt.mem[b.srcFwd])
        && rt.mem[b.dstFwd][..n] == rt.Delivered(old(rt.copies), old(rt.mem[b.srcFwd])[..n])
        && rt.copies == old(rt.copies) + (if bidir then 2 else 1)
    {
      ghost var id := rt.copies;
      ProvisionedHolds(b, bidir, maxSize, keys0, sigs0, n);
      r := Launch(n, ep, bidir, b);
      if !r.Completed? {
        return;
      }
      Land(n, bidir, b, id, maxSize, keys0, sigs0);
    }

    /** The calls of the copy back to the host: the grants, the re-arm, the copy and its wait. */
    function CopyBackEvents(n: nat, ep: Endpoints, b: Buffers): seq<Event>
      requires Endpoint(ep)
    {
      GrantEvents(Grants(Policy(ep.dstDev, b.dstFwd, topo.cpuIndex, b.validationDst)))
      + [Event.SignalStore(b.validationSignal, 1),
         Event.AsyncCopy(b.validationDst, topo.cpuIndex, b.dstFwd, ep.dstDev, n, b.validationSignal),
         Event.SignalWait(b.validationSignal)]
    }

    /**
     * The validation part of one iteration: re-grant access between the
     * device destination and the host destination, re-arm the validation
     * signal to 1, and copy the first n bytes of the device destination
     * back to the host.
     */
    method CopyBack(n: nat, ep: Endpoints, bidir: bool, b: Buffers, ghost maxSize: nat, ghost keys0: set<Handle>,
                    ghost sigs0: set<Handle>) returns (r: Outcome)
      requires Endpoint(ep) && Provisioned(b, bidir, maxSize, keys0, sigs0) && n <= maxSize && validate
      modifies this`err, rt
      ensures Failing(r) && old(rt.log) <= rt.log && rt.next == old(rt.next)
      ensures r.InconsistentState? ==> Policy(ep.dstDev, b.dstFwd, topo.cpuIndex, b.validationDst).Inconsistent?
      ensures r.Completed? ==> Provisioned(b, bidir, maxSize, keys0, sigs0)
      ensures r.Completed? ==>
        && rt.mem[b.validationDst][..n] == rt.Delivered(old(rt.copies), old(rt.mem[b.dstFwd])[..n])
        && rt.times == old(rt.times)[b.validationSignal := rt.timing(old(rt.copies))]
        && rt.copies == old(rt.copies) + 1
        && rt.mem[b.srcFwd] == old(rt.mem[b.srcFwd])
        && rt.log == old(rt.log) + CopyBackEvents(n, ep, b)
    {
      r := AcquirePoolAccesses(ep.dstDev, b.dstFwd, topo.cpuIndex, b.validationDst);
      if !r.Completed? {
        return;
      }
      ghost var mem0, log1 := rt.mem, rt.log;
      r := ArmedCopy(b.validationDst, topo.cpuIndex, b.dstFwd, ep.dstDev, n, b.validationSignal);
      if !r.Completed? {
        return;
      }
      AppendAssoc(old(rt.log), log1[|old(rt.log)|..], rt.log[|log1|..]);
      Overwrite(mem0, rt.signals.Keys, rt.Faithful(), b, bidir, maxSize, keys0, sigs0, b.validationDst,
                rt.mem[b.validationDst]);
    }

    /** Re-arm a signal to 1 and copy size bytes on it (copy_buffer after hsa_signal_store_relaxed). */
    method ArmedCopy(dst: Handle, dstAgent: AgentId, src: Handle, srcAgent: AgentId, size: nat, signal: Handle)
      returns (r: Outcome)
      requires rt.Valid()
      requires src in rt.mem && dst in rt.mem && size <= |rt.mem[src]| && size <= |rt.mem[dst]|
      requires signal in rt.signals && signal !in rt.pending
      modifies this`err, rt
      ensures Failing(r) && !r.InconsistentState? && old(rt.log) <= rt.log && rt.next == old(rt.next)
      ensures r.Completed? ==>
        && rt.Valid()
        && rt.mem == old(rt.mem)[dst := rt.Delivered(old(rt.copies), old(rt.mem[src])[..size]) + old(rt.mem[dst])[size..]]
        && rt.signals == old(rt.signals)[signal := 0]
        && rt.times == old(rt.times)[signal := rt.timing(old(rt.copies))]
        && rt.pending == old(rt.pending) && rt.copies == old(rt.copies) + 1
        && rt.log == old(rt.log) + [Event.SignalStore(signal, 1), Event.AsyncCopy(dst, dstAgent, src, srcAgent, size, signal),
                                    Event.SignalWait(signal)]
    {
      rt.SignalStore(signal, 1);
      r := CopyBuffer(dst, dstAgent, src, srcAgent, size, signal);
    }

    /**
     * The host-side check of one iteration: the copy back to the host, then
     * memcmp of the host seed against what came back.  A mismatch fails the
     * size and sets the exit value to the memcmp result.  With faithful
     * copies the size passes exactly when the device destination held the
     * validation pattern.
     */
    method CheckCopy(n: nat, ep: Endpoints, bidir: bool, b: Buffers, ghost maxSize: nat, ghost keys0: set<Handle>,
                     ghost sigs0: set<Handle>, ghost id: nat) returns (r: Outcome, verified: bool)
      requires Endpoint(ep) && Provisioned(b, bidir, maxSize, keys0, sigs0) && n <= maxSize && validate
      requires Timed(b, bidir, id)
      modifies this`err, this`exitValue, rt
      ensures Failing(r) && old(rt.log) <= rt.log && rt.next == old(rt.next)
      ensures r.InconsistentState? ==> Policy(ep.dstDev, b.dstFwd, topo.cpuIndex, b.validationDst).Inconsistent?
      ensures r.Completed? ==>
        && Provisioned(b, bidir, maxSize, keys0, sigs0)
        && rt.times == old(rt.times)[b.validationSignal := rt.timing(old(rt.copies))]
        && rt.copies == old(rt.copies) + 1
        && rt.mem[b.validationDst][..n] == rt.Delivered(old(rt.copies), old(rt.mem[b.dstFwd])[..n])
        && rt.mem[b.srcFwd] == old(rt.mem[b.srcFwd]) && Timed(b, bidir, id)
        && rt.log == old(rt.log) + CopyBackEvents(n, ep, b)
        && err == MemCmp(rt.mem[b.validationSrc], rt.mem[b.validationDst], n)
        && err == MemCmp(Fill(VALIDATION_PATTERN, n), rt.Delivered(old(rt.copies), old(rt.mem[b.dstFwd])[..n]), n)
        && (verified <==> err == 0)
        && (if verified then exitValue == old(exitValue) else exitValue == err)
      ensures r.Completed? && rt.Faithful() ==> (verified <==> old(rt.mem[b.dstFwd])[..n] == Fill(VALIDATION_PATTERN, n))
    {
      verified := true;
      r := CopyBack(n, ep, bidir, b, maxSize, keys0, sigs0);
      if !r.Completed? {
        return;
      }
      verified := CompareBack(n, b, rt.Delivered(old(rt.copies), old(rt.mem[b.dstFwd])[..n]));
    }

    /**
     * memcmp of the host seed against the host destination over n bytes,
     * into err_; a mismatch fails the size and sets the exit value to the
     * memcmp result.  When the destination's first n bytes are back, the
     * result is memcmp of the pattern against back.
     */
    method CompareBack(n: nat, b: Buffers, ghost back: seq<bv8>) returns (verified: bool)
      requires b.validationSrc in rt.mem && b.validationDst in rt.mem
      requires n <= |rt.mem[b.validationSrc]| && n <= |rt.mem[b.validationDst]|
      requires rt.mem[b.validationSrc] == Fill(VALIDATION_PATTERN, |rt.mem[b.validationSrc]|)
      requires rt.mem[b.validationDst][..n] == back
      modifies this`err, this`exitValue
      ensures err == MemCmp(rt.mem[b.validationSrc], rt.mem[b.validationDst], n)
      ensures err == MemCmp(Fill(VALIDATION_PATTERN, n), back, n)
      ensures verified <==> err == 0
      ensures if verified then exitValue == old(exitValue) else exitValue == err
    {
      verified := true;
      SeedCompare(rt.mem[b.validationSrc], rt.mem[b.validationDst], n, back);
      err := MemCmp(rt.mem[b.validationSrc], rt.mem[b.validationDst], n);
      if err != HSA_STATUS_SUCCESS {
        verified := false;
        exitValue := err;
      }
    }

    /** Comparing the host seed with a buffer compares the pattern with the buffer's first n bytes. */
    lemma SeedCompare(seed: seq<bv8>, dst: seq<bv8>, n: nat, back: seq<bv8>)
      requires seed == Fill(VALIDATION_PATTERN, |seed|) && n <= |seed| && n <= |dst| && dst[..n] == back
      ensures MemCmp(seed, dst, n) == MemCmp(Fill(VALIDATION_PATTERN, n), back, n)
    {
      MemCmpPrefix(seed, dst, n);
      FillPrefix(VALIDATION_PATTERN, |seed|, n);
    }

    /**
     * The memcmp result of a validated iteration whose forward copy is copy
     * number id while the forward source holds src: the host seed pattern
     * against what came back to the host, which is the forward copy's
     * delivery of the source's first n bytes, carried back by the copy after
     * the iteration's own (the reverse copy, when bidirectional, comes
     * between).
     */
    function CheckResult(n: nat, bidir: bool, id: nat, src: seq<bv8>): int
      requires n <= |src|
    {
      MemCmp(Fill(VALIDATION_PATTERN, n), rt.Delivered(id + (if bidir then 2 else 1), rt.Delivered(id, src[..n])), n)
    }

    /**
     * The verdict of one iteration whose forward copy is copy number id
     * while the forward source holds src: when validating, it passes exactly
     * when the check's memcmp is zero, and a failure leaves that memcmp
     * result in the exit value (exitValue0 before, exitValue after); without
     * validation it passes.  A passing iteration keeps the exit value.
     */
    ghost predicate Verdict(verified: bool, n: nat, bidir: bool, id: nat, src: seq<bv8>, exitValue0: int, exitValue: int)
      requires n <= |src|
    {
      && (validate ==> (verified <==> CheckResult(n, bidir, id, src) == 0))
      && (!validate ==> verified)
      && (if verified then exitValue == exitValue0 else exitValue == CheckResult(n, bidir, id, src))
    }

    /** How many copies one iteration issues: one per direction, and the copy back to the host when validating. */
    function CopiesPerIteration(bidir: bool): nat
    {
      (if bidir then 2 else 1) + (if validate then 1 else 0)
    }

    /** The number of the forward copy of iteration i, when iteration 0's forward copy is copy number id0. */
    function CopyOfIteration(bidir: bool, id0: nat, i: nat): (id: nat)
      ensures id >= id0
    {
      id0 + i * CopiesPerIteration(bidir)
    }

    /** Iterations follow one another: iteration i + 1 starts where iteration i's copies end. */
    lemma NextIteration(bidir: bool, id0: nat, i: nat)
      ensures CopyOfIteration(bidir, id0, i + 1) == CopyOfIteration(bidir, id0, i) + CopiesPerIteration(bidir)
    {
      var c := CopiesPerIteration(bidir);
      assert (i + 1) * c == i * c + c;
    }

    /**
     * The device span GetGpuCopyTime reports for an iteration whose forward
     * copy is copy number id (the reverse copy, when bidirectional, is the
     * next one).
     */
    function IterationSpan(bidir: bool, id: nat): int
    {
      DeviceSpan(bidir, rt.timing(id), rt.timing(id + (if bidir then 1 else 0)))
    }

    /** The calls of an iteration's copies and check: arm, re-grant, copy, wait, and the copy back when validating. */
    function CheckedEvents(n: nat, ep: Endpoints, bidir: bool, b: Buffers): seq<Event>
      requires Endpoint(ep)
    {
      ArmEvents(bidir, b) + RegrantEvents(ep, b) + CopyEvents(n, ep, bidir, b) + WaitEvents(bidir, b)
      + (if validate then CopyBackEvents(n, ep, b) else [])
    }

    /**
     * The copies of one iteration and, when validating, the host-side check.
     * Each copy's device timestamps are left on its signal.
     */
    method TransferChecked(n: nat, ep: Endpoints, bidir: bool, b: Buffers, ghost maxSize: nat,
                           ghost keys0: set<Handle>, ghost sigs0: set<Handle>) returns (r: Outcome, verified: bool)
      requires Endpoint(ep) && Provisioned(b, bidir, maxSize, keys0, sigs0) && n <= maxSize
      modifies this`err, this`exitValue, rt
      ensures Failing(r) && old(rt.log) <= rt.log && rt.next == old(rt.next)
      ensures r.InconsistentState? ==> validate
      ensures r.Completed? ==>
        && Provisioned(b, bidir, maxSize, keys0, sigs0)
        && Timed(b, bidir, old(rt.copies))
        && rt.copies == old(rt.copies) + CopiesPerIteration(bidir)
        && rt.mem[b.srcFwd] == old(rt.mem[b.srcFwd])
        && rt.log == old(rt.log) + CheckedEvents(n, ep, bidir, b)
      ensures r.Completed? ==> Verdict(verified, n, bidir, old(rt.copies), old(rt.mem[b.srcFwd]), old(exitValue), exitValue)
      ensures r.Completed? && !verified ==> err == exitValue
      ensures r.Completed? && (!validate || rt.Faithful()) ==> verified
    {
      verified := true;
      ghost var id := rt.copies;
      r := TransferOnce(n, ep, bidir, b, maxSize, keys0, sigs0);
      if !r.Completed? {
        return;
      }
      if validate {
        if rt.Faithful() {
          FillPrefix(VALIDATION_PATTERN, maxSize, n);
        }
        r, verified := CheckCopy(n, ep, bidir, b, maxSize, keys0, sigs0, id);
      }
      if r.Completed? {
        IterationLog(old(rt.log), ArmEvents(bidir, b), RegrantEvents(ep, b), CopyEvents(n, ep, bidir, b),
                     WaitEvents(bidir, b), if validate then CopyBackEvents(n, ep, b) else []);
      }
    }

    /**
     * The device span of one iteration's copies when GPU timing is on:
     * the forward copy's, or the union of both when bidirectional.
     */
    method TimeCopies(bidir: bool, usesGpu: bool, b: Buffers, ghost id: nat, ghost maxSize: nat,
                      ghost keys0: set<Handle>, ghost sigs0: set<Handle>) returns (r: Outcome, span: int)
      requires Provisioned(b, bidir, maxSize, keys0, sigs0)
      requires Timed(b, bidir, id)
      modifies this`err, rt`calls, rt`log
      ensures Failing(r) && !r.InconsistentState? && old(rt.log) <= rt.log
      ensures r.Completed? ==> rt.log == old(rt.log) + TimeEvents(bidir, usesGpu, b)
      ensures r.Completed? && GpuOn(usesGpu) ==>
        && span == IterationSpan(bidir, id)
        && -UINT64_LIMIT < span < UINT64_LIMIT
        && (rt.OrderedTiming() ==> span >= 0)
    {
      r, span := Completed, 0;
      if GpuOn(usesGpu) {
        r, span := GetGpuCopyTime(bidir, b.signalFwd, b.signalRev);
        if r.Completed? {
          AppendAssoc(old(rt.log), [Event.CopyTimeQuery(b.signalFwd)],
                      if bidir then [Event.CopyTimeQuery(b.signalRev)] else []);
        }
        if rt.OrderedTiming() {
          assert rt.timing(id).start <= rt.timing(id).end;
          assert rt.timing(id + 1).start <= rt.timing(id + 1).end;
        }
      }
    }

    /** The timestamp queries of an iteration when GPU timing is on: forward, then reverse. */
    function TimeEvents(bidir: bool, usesGpu: bool, b: Buffers): seq<Event>
    {
      if GpuOn(usesGpu) then [Event.CopyTimeQuery(b.signalFwd)] + (if bidir then [Event.CopyTimeQuery(b.signalRev)] else [])
      else []
    }

    /**
     * The calls of one iteration, and of an iteration that stops at a failed
     * check: the copies and the check, then, for one that goes on to timing,
     * the timestamp queries.
     */
    function IterationEvents(n: nat, ep: Endpoints, bidir: bool, usesGpu: bool, b: Buffers, timed: bool): seq<Event>
      requires Endpoint(ep)
    {
      CheckedEvents(n, ep, bidir, b) + (if timed then TimeEvents(bidir, usesGpu, b) else [])
    }

    /**
     * One iteration of a size: the copies, then, when validating, the
     * host-side check, then, when GPU timing is on and the size did not
     * fail, the device span of the copies.
     */
    method CopyIteration(n: nat, ep: Endpoints, bidir: bool, usesGpu: bool, b: Buffers, ghost maxSize: nat,
                         ghost keys0: set<Handle>, ghost sigs0: set<Handle>) returns (r: Outcome, verified: bool, span: int)
      requires Endpoint(ep) && Provisioned(b, bidir, maxSize, keys0, sigs0) && n <= maxSize
      modifies this`err, this`exitValue, rt
      ensures Failing(r) && old(rt.log) <= rt.log && rt.next == old(rt.next)
      ensures r.InconsistentState? ==> validate
      ensures r.Completed? ==> Provisioned(b, bidir, maxSize, keys0, sigs0)
      ensures r.Completed? ==>
        && rt.copies == old(rt.copies) + CopiesPerIteration(bidir)
        && rt.mem[b.srcFwd] == old(rt.mem[b.srcFwd])
        && rt.log == old(rt.log) + IterationEvents(n, ep, bidir, usesGpu, b, verified)
      ensures r.Completed? ==> Verdict(verified, n, bidir, old(rt.copies), old(rt.mem[b.srcFwd]), old(exitValue), exitValue)
      ensures r.Completed? && !verified ==> err == exitValue
      ensures r.Completed? && (!validate || rt.Faithful()) ==> verified
      ensures r.Completed? && verified && GpuOn(usesGpu) ==>
        && span == IterationSpan(bidir, old(rt.copies))
        && -UINT64_LIMIT < span < UINT64_LIMIT
        && (rt.OrderedTiming() ==> span >= 0)
    {
      ghost var id, log0 := rt.copies, rt.log;
      span := 0;
      r, verified := TransferChecked(n, ep, bidir, b, maxSize, keys0, sigs0);
      if !r.Completed? {
        return;
      }
      if !verified {
        return;
      }
      r, span := TimeCopies(bidir, usesGpu, b, id, maxSize, keys0, sigs0);
      if r.Completed? {
        AppendAssoc(log0, CheckedEvents(n, ep, bidir, b), TimeEvents(bidir, usesGpu, b));
      }
    }

    /**
     * The accumulated GPU time of a size so far: the sum of the spans
     * collected, each a 64-bit stamp difference (not negative when the stamps
     * are in order) and each the span of its iteration's copies.
     */
    ghost predicate Accumulated(acc: real, spans: seq<int>, bidir: bool, id0: nat, ordered: bool)
    {
      acc == Total(spans) && SpansInRange(spans, ordered) && SpansOf(spans, bidir, id0)
    }

    /** Each span is the device span of its iteration's copies, iteration 0's forward copy being copy number id0. */
    ghost predicate SpansOf(spans: seq<int>, bidir: bool, id0: nat)
    {
      forall i :: 0 <= i < |spans| ==> spans[i] == IterationSpan(bidir, CopyOfIteration(bidir, id0, i))
    }

    /** Adding the next iteration's span to the accumulator. */
    lemma AccumulateOne(acc: real, spans: seq<int>, bidir: bool, id0: nat, ordered: bool, span: int)
      requires Accumulated(acc, spans, bidir, id0, ordered)
      requires span == IterationSpan(bidir, CopyOfIteration(bidir, id0, |spans|))
      requires -UINT64_LIMIT < span < UINT64_LIMIT && (ordered ==> span >= 0)
      ensures Accumulated(acc + span as real, spans + [span], bidir, id0, ordered)
    {
      TotalSnoc(spans, span);
    }

    /**
     * One iteration of the loop over a size: the iteration's copies and
     * check, and, when GPU timing is on and the check passed, its span
     * added to the accumulator.  A failed check leaves the accumulator as
     * it was.
     */
    method AccumulateIteration(n: nat, ep: Endpoints, bidir: bool, usesGpu: bool, b: Buffers, ghost maxSize: nat,
                               ghost keys0: set<Handle>, ghost sigs0: set<Handle>, ghost id0: nat, ghost it: nat,
                               acc: real, ghost spans: seq<int>)
      returns (r: Outcome, verified: bool, acc': real, ghost spans': seq<int>)
      requires Endpoint(ep) && Provisioned(b, bidir, maxSize, keys0, sigs0) && n <= maxSize
      requires rt.copies == CopyOfIteration(bidir, id0, it)
      requires Accumulated(acc, spans, bidir, id0, rt.OrderedTiming())
      requires |spans| == if GpuOn(usesGpu) then it else 0
      modifies this`err, this`exitValue, rt
      ensures Failing(r) && old(rt.log) <= rt.log && rt.next == old(rt.next)
      ensures r.InconsistentState? ==> validate
      ensures r.Completed? ==>
        && Provisioned(b, bidir, maxSize, keys0, sigs0)
        && rt.copies == CopyOfIteration(bidir, id0, it + 1)
        && rt.mem[b.srcFwd] == old(rt.mem[b.srcFwd])
        && rt.log == old(rt.log) + IterationEvents(n, ep, bidir, usesGpu, b, verified)
        && Verdict(verified, n, bidir, CopyOfIteration(bidir, id0, it), old(rt.mem[b.srcFwd]), old(exitValue), exitValue)
        && (!verified ==> err == exitValue)
      ensures r.Completed? && (!validate || rt.Faithful()) ==> verified
      ensures r.Completed? && verified ==>
        && Accumulated(acc', spans', bidir, id0, rt.OrderedTiming())
        && |spans'| == (if GpuOn(usesGpu) then it + 1 else 0)
      ensures r.Completed? && !verified ==> acc' == acc && spans' == spans
    {
      var span;
      acc', spans' := acc, spans;
      r, verified, span := CopyIteration(n, ep, bidir, usesGpu, b, maxSize, keys0, sigs0);
      if !r.Completed? {
        return;
      }
      NextIteration(bidir, id0, it);
      if !verified {
        return;
      }
      if GpuOn(usesGpu) {
        AccumulateOne(acc, spans, bidir, id0, rt.OrderedTiming(), span);
        acc', spans' := acc + span as real, spans + [span];
      }
    }

    /**
     * The calls of one size's iterations: passed iterations, each with its
     * timestamp queries, then, when the size failed, the failed iteration,
     * which stops after its check.
     */
    function SizeEvents(n: nat, ep: Endpoints, bidir: bool, usesGpu: bool, b: Buffers, passed: nat, ok: bool): seq<Event>
      requires Endpoint(ep)
    {
      Repeat(IterationEvents(n, ep, bidir, usesGpu, b, true), passed)
      + (if ok then [] else IterationEvents(n, ep, bidir, usesGpu, b, false))
    }

    /** The calls of one more iteration after it passed ones. */
    lemma SizeEventsNext(n: nat, ep: Endpoints, bidir: bool, usesGpu: bool, b: Buffers, log0: seq<Event>,
                         it: nat, ok: bool)
      requires Endpoint(ep)
      ensures ok ==> log0 + SizeEvents(n, ep, bidir, usesGpu, b, it, true) + IterationEvents(n, ep, bidir, usesGpu, b, ok)
                     == log0 + SizeEvents(n, ep, bidir, usesGpu, b, it + 1, true)
      ensures !ok ==> log0 + SizeEvents(n, ep, bidir, usesGpu, b, it, true) + IterationEvents(n, ep, bidir, usesGpu, b, ok)
                      == log0 + SizeEvents(n, ep, bidir, usesGpu, b, it, false)
    {
      var e := IterationEvents(n, ep, bidir, usesGpu, b, true);
      assert SizeEvents(n, ep, bidir, usesGpu, b, it, true) == Repeat(e, it);
      AppendAssoc(log0, Repeat(e, it), IterationEvents(n, ep, bidir, usesGpu, b, ok));
    }

    /**
     * The iterations of one size, when validating, while the forward source
     * holds src: the first k iterations, their forward copies counted from
     * copy number id0, all passed the check.
     */
    ghost predicate Passed(n: nat, bidir: bool, id0: nat, src: seq<bv8>, k: nat)
      requires n <= |src|
    {
      validate ==> forall i :: 0 <= i < k ==> CheckResult(n, bidir, CopyOfIteration(bidir, id0, i), src) == 0
    }

    /** One more passing iteration. */
    lemma PassedSnoc(n: nat, bidir: bool, id0: nat, src: seq<bv8>, k: nat)
      requires n <= |src| && Passed(n, bidir, id0, src, k)
      requires validate ==> CheckResult(n, bidir, CopyOfIteration(bidir, id0, k), src) == 0
      ensures Passed(n, bidir, id0, src, k + 1)
    {
    }

    /**
     * The runtime after it iterations of one size all passed, starting from
     * copy number id0, the forward source holding src and the call log log0:
     * the copies of those iterations were issued, the forward source is
     * untouched, the calls are theirs and every check passed.
     */
    ghost predicate AfterIterations(n: nat, ep: Endpoints, bidir: bool, usesGpu: bool, b: Buffers,
                                    id0: nat, src: seq<bv8>, log0: seq<Event>, it: nat)
      reads rt
      requires Endpoint(ep) && n <= |src|
    {
      && rt.copies == CopyOfIteration(bidir, id0, it) && b.srcFwd in rt.mem && rt.mem[b.srcFwd] == src
      && rt.log == log0 + SizeEvents(n, ep, bidir, usesGpu, b, it, true)
      && Passed(n, bidir, id0, src, it)
    }

    /**
     * The same start, when it iterations passed and the next one failed its
     * check: its copies were issued too, its calls stop before the timestamp
     * queries, and its nonzero memcmp result is in err_ and the exit value.
     */
    ghost predicate AfterFailure(n: nat, ep: Endpoints, bidir: bool, usesGpu: bool, b: Buffers,
                                 id0: nat, src: seq<bv8>, log0: seq<Event>, it: nat)
      reads this, rt
      requires Endpoint(ep) && n <= |src|
    {
      && rt.copies == CopyOfIteration(bidir, id0, it + 1) && b.srcFwd in rt.mem && rt.mem[b.srcFwd] == src
      && rt.log == log0 + SizeEvents(n, ep, bidir, usesGpu, b, it, false)
      && Passed(n, bidir, id0, src, it)
      && validate && exitValue == err == CheckResult(n, bidir, CopyOfIteration(bidir, id0, it), src) && exitValue != 0
    }

    /**
     * The loop body of RunIterations, seen from the loop: after it iterations
     * passed (their forward copies counted from copy number id0, the forward
     * source holding src, the calls since log0 being theirs), one more
     * iteration either passes, extending all of that by one, or fails its
     * check, leaving its calls without the timestamp queries and its memcmp
     * result in err_ and the exit value.
     */
    method StepIteration(n: nat, ep: Endpoints, bidir: bool, usesGpu: bool, b: Buffers, ghost maxSize: nat,
                         ghost keys0: set<Handle>, ghost sigs0: set<Handle>, ghost id0: nat, ghost src: seq<bv8>,
                         ghost log0: seq<Event>, ghost it: nat, acc: real, ghost spans: seq<int>)
      returns (r: Outcome, ok: bool, acc': real, ghost spans': seq<int>, ghost it': nat)
      requires Endpoint(ep) && Provisioned(b, bidir, maxSize, keys0, sigs0) && n <= maxSize
      requires n <= |src| && AfterIterations(n, ep, bidir, usesGpu, b, id0, src, log0, it)
      requires Accumulated(acc, spans, bidir, id0, rt.OrderedTiming())
      requires |spans| == if GpuOn(usesGpu) then it else 0
      modifies this`err, this`exitValue, rt
      ensures Failing(r) && log0 <= rt.log && rt.next == old(rt.next)
      ensures r.InconsistentState? ==> validate
      ensures r.Completed? ==> Provisioned(b, bidir, maxSize, keys0, sigs0)
      ensures r.Completed? && (!validate || rt.Faithful()) ==> ok
      ensures r.Completed? && ok ==>
        && it' == it + 1
        && AfterIterations(n, ep, bidir, usesGpu, b, id0, src, log0, it')
        && Accumulated(acc', spans', bidir, id0, rt.OrderedTiming())
        && |spans'| == (if GpuOn(usesGpu) then it' else 0)
        && exitValue == old(exitValue)
      ensures r.Completed? && !ok ==>
        && it' == it
        && AfterFailure(n, ep, bidir, usesGpu, b, id0, src, log0, it')
        && acc' == acc && spans' == spans
    {
      r, ok, acc', spans' := AccumulateIteration(n, ep, bidir, usesGpu, b, maxSize, keys0, sigs0, id0, it, acc, spans);
      it' := it;
      if !r.Completed? {
        return;
      }
      SizeEventsNext(n, ep, bidir, usesGpu, b, log0, it, ok);
      if ok {
        PassedSnoc(n, bidir, id0, src, it);
        it' := it + 1;
      } else {
        assert rt.copies == CopyOfIteration(bidir, id0, it' + 1);
        assert b.srcFwd in rt.mem && rt.mem[b.srcFwd] == src;
        assert rt.log == log0 + SizeEvents(n, ep, bidir, usesGpu, b, it', false);
        assert Passed(n, bidir, id0, src, it');
        assert validate;
        assert exitValue == err;
        assert err == CheckResult(n, bidir, CopyOfIteration(bidir, id0, it'), src);
        assert exitValue != 0;
      }
    }

    /**
     * The iterations of one size: each iteration's copies, check and device
     * span, stopping at the first failed validation.  passed counts the
     * iterations that passed; when one fails, it is the next one, its copies
     * were issued, and its memcmp result is left in the exit value.  The
     * accumulated GPU time is the sum of the spans collected, one per
     * iteration while GPU timing is on, each the span of that iteration's
     * copies.
     */
    method RunIterations(n: nat, ep: Endpoints, bidir: bool, usesGpu: bool, b: Buffers, iterations: nat,
                         ghost maxSize: nat, ghost keys0: set<Handle>, ghost sigs0: set<Handle>)
      returns (r: Outcome, verified: bool, acc: real, ghost spans: seq<int>, ghost passed: nat)
      requires Endpoint(ep) && Provisioned(b, bidir, maxSize, keys0, sigs0) && n <= maxSize
      modifies this`err, this`exitValue, rt
      ensures Failing(r) && old(rt.log) <= rt.log && rt.next == old(rt.next)
      ensures r.InconsistentState? ==> validate
      ensures r.Completed? ==> Provisioned(b, bidir, maxSize, keys0, sigs0)
      ensures r.Completed? && verified ==>
        && passed == iterations && exitValue == old(exitValue)
        && AfterIterations(n, ep, bidir, usesGpu, b, old(rt.copies), old(rt.mem[b.srcFwd]), old(rt.log), passed)
      ensures r.Completed? && !verified ==>
        && passed < iterations
        && AfterFailure(n, ep, bidir, usesGpu, b, old(rt.copies), old(rt.mem[b.srcFwd]), old(rt.log), passed)
      ensures r.Completed? ==> Accumulated(acc, spans, bidir, old(rt.copies), rt.OrderedTiming())
      ensures r.Completed? && verified ==> |spans| == if GpuOn(usesGpu) then iterations else 0
      ensures r.Completed? && (!validate || rt.Faithful()) ==> verified
    {
      r, verified, acc, spans, passed := Completed, true, 0.0, [], 0;
      var it := 0;
      while it < iterations
        invariant it <= iterations && r == Completed && verified && passed == it
        invariant Provisioned(b, bidir, maxSize, keys0, sigs0)
        invariant rt.next == old(rt.next)
        invariant AfterIterations(n, ep, bidir, usesGpu, b, old(rt.copies), old(rt.mem[b.srcFwd]), old(rt.log), passed)
        invariant Accumulated(acc, spans, bidir, old(rt.copies), rt.OrderedTiming())
        invariant |spans| == if GpuOn(usesGpu) then it else 0
        invariant exitValue == old(exitValue)
      {
        var ok;
        r, ok, acc, spans, passed := StepIteration(n, ep, bidir, usesGpu, b, maxSize, keys0, sigs0,
                                                   old(rt.copies), old(rt.mem[b.srcFwd]), old(rt.log), passed, acc, spans);
        if !r.Completed? {
          return;
        }
        if !ok {
          verified := false;
          return;
        }
        it := it + 1;
      }
    }

    /**
     * The sizes of the sweep so far, when validating, while the forward
     * source holds src: each size ran its iterations' copies in turn from
     * copy number id0 on, and passed exactly when the memcmp of its check
     * was zero.
     */
    ghost predicate Checked(verified: seq<bool>, bidir: bool, id0: nat, src: seq<bv8>, iterations: nat)
    {
      && |verified| <= |sizeList|
      && forall k :: 0 <= k < |verified| ==>
           && sizeList[k] <= |src|
           && (validate ==> (verified[k] <==> CheckResult(sizeList[k], bidir, SizeStart(bidir, id0, k, iterations), src) == 0))
    }

    /** One more size, with the verdict of its check. */
    lemma CheckedSnoc(verified: seq<bool>, bidir: bool, id0: nat, src: seq<bv8>, iterations: nat, ok: bool)
      requires Checked(verified, bidir, id0, src, iterations)
      requires |verified| < |sizeList| && sizeList[|verified|] <= |src|
      requires validate ==>
        (ok <==> CheckResult(sizeList[|verified|], bidir, SizeStart(bidir, id0, |verified|, iterations), src) == 0)
      ensures Checked(verified + [ok], bidir, id0, src, iterations)
    {
      var v := verified + [ok];
      forall k | 0 <= k < |v|
        ensures validate ==> (v[k] <==> CheckResult(sizeList[k], bidir, SizeStart(bidir, id0, k, iterations), src) == 0)
      {
        if k < |verified| {
          assert v[k] == verified[k];
        }
      }
    }

    /**
     * The device spans of the sweep's sizes so far: the spans of size k are
     * those of its own iterations' copies, size 0's first copy being copy
     * number id0.
     */
    ghost predicate SizeSpans(spans: seq<seq<int>>, bidir: bool, id0: nat, iterations: nat)
    {
      forall k :: 0 <= k < |spans| ==> SpansOf(spans[k], bidir, SizeStart(bidir, id0, k, iterations))
    }

    /** One more size, with the spans of its iterations. */
    lemma SizeSpansSnoc(spans: seq<seq<int>>, bidir: bool, id0: nat, iterations: nat, s: seq<int>)
      requires SizeSpans(spans, bidir, id0, iterations) && SpansOf(s, bidir, SizeStart(bidir, id0, |spans|, iterations))
      ensures SizeSpans(spans + [s], bidir, id0, iterations)
    {
      var sp := spans + [s];
      forall k | 0 <= k < |sp|
        ensures SpansOf(sp[k], bidir, SizeStart(bidir, id0, k, iterations))
      {
        if k < |spans| {
          assert sp[k] == spans[k];
        }
      }
    }

    /** The number of the first copy of size k of the sweep, when size 0's first copy is copy number id0. */
    function SizeStart(bidir: bool, id0: nat, k: nat, iterations: nat): nat
    {
      CopyOfIteration(bidir, id0, k * iterations)
    }

    /** The sizes follow one another: size k + 1 starts where the iterations of size k end. */
    lemma NextSize(bidir: bool, id0: nat, k: nat, iterations: nat)
      ensures CopyOfIteration(bidir, SizeStart(bidir, id0, k, iterations), iterations) == SizeStart(bidir, id0, k + 1, iterations)
    {
      var c := CopiesPerIteration(bidir);
      assert (k + 1) * iterations * c == k * iterations * c + iterations * c;
    }

    /**
     * The iterations of one size, seen from the sweep: a validating sweep
     * runs one iteration per size, so the copies of all iterations are
     * issued, and, when validating, the size passes exactly when the memcmp
     * of its check is zero.
     */
    method RunSize(n: nat, ep: Endpoints, bidir: bool, usesGpu: bool, b: Buffers, iterations: nat,
                   ghost maxSize: nat, ghost keys0: set<Handle>, ghost sigs0: set<Handle>)
      returns (r: Outcome, verified: bool, acc: real, ghost spans: seq<int>)
      requires Endpoint(ep) && Provisioned(b, bidir, maxSize, keys0, sigs0) && n <= maxSize
      requires iterations == IterationNum(validate, numIteration)
      modifies this`err, this`exitValue, rt
      ensures Failing(r) && old(rt.log) <= rt.log && rt.next == old(rt.next)
      ensures r.InconsistentState? ==> validate
      ensures r.Completed? ==>
        && Provisioned(b, bidir, maxSize, keys0, sigs0)
        && rt.copies == CopyOfIteration(bidir, old(rt.copies), iterations)
        && rt.mem[b.srcFwd] == old(rt.mem[b.srcFwd])
        && (validate ==> (verified <==> CheckResult(n, bidir, old(rt.copies), old(rt.mem[b.srcFwd])) == 0))
        && (if verified then exitValue == old(exitValue) else validate && exitValue != 0)
      ensures r.Completed? ==> Accumulated(acc, spans, bidir, old(rt.copies), rt.OrderedTiming())
      ensures r.Completed? && verified ==> |spans| == if GpuOn(usesGpu) then iterations else 0
      ensures r.Completed? && (!validate || rt.Faithful()) ==> verified
    {
      ghost var id0 := rt.copies;
      ghost var passed;
      r, verified, acc, spans, passed := RunIterations(n, ep, bidir, usesGpu, b, iterations, maxSize, keys0, sigs0);
      if r.Completed? {
        assert CopyOfIteration(bidir, id0, 0) == id0;
        if !verified {
          assert passed == 0 && iterations == 1;
        }
      }
    }

    /**
     * One size of the sweep: its iterations, then its entries in the
     * transaction's result series.  The postconditions extend the sweep's
     * record of sizes (verified, spans) by this size: all iterations' copies
     * were issued and, when validating, the size passed exactly when its
     * memcmp was zero.
     */
    method MeasureSize(idx: nat, ep: Endpoints, bidir: bool, usesGpu: bool, b: Buffers, ti: nat, elapsed: nat -> real,
                       iterations: nat, maxSize: nat, ghost keys0: set<Handle>, ghost sigs0: set<Handle>,
                       ghost t0: Transaction, ghost verified: seq<bool>, ghost spans: seq<seq<int>>, ghost exitValue0: int)
      returns (r: Outcome, ghost ok: bool, ghost s: seq<int>)
      requires ti < |transList| && iterations == IterationNum(validate, numIteration) && idx == |verified| == |spans|
      requires idx < |sizeList| && sizeList[idx] <= maxSize
      requires Endpoint(ep) && Provisioned(b, bidir, maxSize, keys0, sigs0)
      requires transList[ti] == Recorded(t0, elapsed, verified, spans, iterations, GpuOn(usesGpu))
      requires Progress(verified, spans, iterations, GpuOn(usesGpu), rt.OrderedTiming(), !validate || rt.Faithful(),
                        validate, exitValue, exitValue0)
      modifies this`err, this`exitValue, this`transList, rt
      ensures Failing(r) && old(rt.log) <= rt.log && rt.next == old(rt.next)
      ensures r.InconsistentState? ==> validate
      ensures r.Completed? ==>
        && Provisioned(b, bidir, maxSize, keys0, sigs0)
        && transList == old(transList)[ti := Recorded(t0, elapsed, verified + [ok], spans + [s], iterations, GpuOn(usesGpu))]
        && Progress(verified + [ok], spans + [s], iterations, GpuOn(usesGpu), rt.OrderedTiming(), !validate || rt.Faithful(),
                    validate, exitValue, exitValue0)
      ensures r.Completed? ==>
        && rt.copies == CopyOfIteration(bidir, old(rt.copies), iterations)
        && rt.mem[b.srcFwd] == old(rt.mem[b.srcFwd])
        && (validate ==> (ok <==> CheckResult(sizeList[idx], bidir, old(rt.copies), old(rt.mem[b.srcFwd])) == 0))
        && SpansOf(s, bidir, old(rt.copies))
    {
      var verify, acc;
      ghost var exit := exitValue;
      r, verify, acc, s := RunSize(sizeList[idx], ep, bidir, usesGpu, b, iterations, maxSize, keys0, sigs0);
      ok := verify;
      if !r.Completed? {
        return;
      }
      var cpu := elapsed(idx) / iterations as real;
      var gpu := if verify then acc / iterations as real else DOUBLE_MAX;
      RecordedSnoc(t0, elapsed, verified, spans, iterations, GpuOn(usesGpu), ok, s);
      ProgressSnoc(verified, spans, iterations, GpuOn(usesGpu), rt.OrderedTiming(), !validate || rt.Faithful(),
                   validate, exit, exitValue0, ok, s, exitValue);
      transList := transList[ti := Record(transList[ti], cpu, GpuOn(usesGpu), gpu)];
    }

    /**
     * The sweep after its first |verified| sizes, started from the
     * transaction list list0 with transaction ti as t0, at copy number id0,
     * with the forward source holding src and the exit value exitValue0:
     * the layout is kept, every size issued the copies of all its
     * iterations, the forward source is untouched, the verdicts are those of
     * the checks, the spans are those of each size's own copies, and
     * transaction ti holds the results recorded so far.
     */
    ghost predicate Swept(bidir: bool, usesGpu: bool, b: Buffers, ti: nat, elapsed: nat -> real, iterations: nat,
                          maxSize: nat, keys0: set<Handle>, sigs0: set<Handle>, list0: seq<Transaction>, t0: Transaction,
                          id0: nat, src: seq<bv8>, exitValue0: int, verified: seq<bool>, spans: seq<seq<int>>)
      reads this, rt
    {
      && |verified| == |spans| <= SweepLength(sizeList, maxSize) && iterations >= 1
      && Provisioned(b, bidir, maxSize, keys0, sigs0)
      && rt.copies == SizeStart(bidir, id0, |verified|, iterations) && b.srcFwd in rt.mem && rt.mem[b.srcFwd] == src
      && Checked(verified, bidir, id0, src, iterations) && SizeSpans(spans, bidir, id0, iterations)
      && ti < |list0| && transList == list0[ti := Recorded(t0, elapsed, verified, spans, iterations, GpuOn(usesGpu))]
      && Progress(verified, spans, iterations, GpuOn(usesGpu), rt.OrderedTiming(), !validate || rt.Faithful(),
                  validate, exitValue, exitValue0)
    }

    /** The loop body of SweepSizes, seen from the loop: one more size, measured and recorded. */
    method StepSize(idx: nat, ep: Endpoints, bidir: bool, usesGpu: bool, b: Buffers, ti: nat, elapsed: nat -> real,
                    iterations: nat, maxSize: nat, ghost keys0: set<Handle>, ghost sigs0: set<Handle>,
                    ghost list0: seq<Transaction>, ghost t0: Transaction, ghost id0: nat, ghost src: seq<bv8>,
                    ghost exitValue0: int, ghost verified: seq<bool>, ghost spans: seq<seq<int>>)
      returns (r: Outcome, ghost verified': seq<bool>, ghost spans': seq<seq<int>>)
      requires Endpoint(ep) && iterations == IterationNum(validate, numIteration)
      requires idx == |verified| < |sizeList| && sizeList[idx] <= maxSize
      requires Swept(bidir, usesGpu, b, ti, elapsed, iterations, maxSize, keys0, sigs0, list0, t0, id0, src, exitValue0,
                     verified, spans)
      modifies this`err, this`exitValue, this`transList, rt
      ensures Failing(r) && old(rt.log) <= rt.log && rt.next == old(rt.next)
      ensures r.InconsistentState? ==> validate
      ensures r.Completed? ==>
        && |verified'| == |verified| + 1
        && Swept(bidir, usesGpu, b, ti, elapsed, iterations, maxSize, keys0, sigs0, list0, t0, id0, src, exitValue0,
                 verified', spans')
    {
      assert idx < SweepLength(sizeList, maxSize);
      ghost var ok, s;
      r, ok, s := MeasureSize(idx, ep, bidir, usesGpu, b, ti, elapsed, iterations, maxSize, keys0, sigs0,
                              t0, verified, spans, exitValue0);
      verified', spans' := verified + [ok], spans + [s];
      if !r.Completed? {
        return;
      }
      CheckedSnoc(verified, bidir, id0, src, iterations, ok);
      SizeSpansSnoc(spans, bidir, id0, iterations, s);
      NextSize(bidir, id0, idx, iterations);
    }

    /**
     * The size sweep: every size of the list up to the largest, in order;
     * per size, the iterations, then one CPU entry (the timer's reading over
     * the iteration count, min and mean alike) and, when GPU timing is on,
     * one GPU entry (the accumulated device time over the iteration count,
     * or DBL_MAX when the size failed validation).  The verification status
     * starts afresh with every size.  Every size issues the copies of all
     * its iterations, and, when validating, passes exactly when the memcmp
     * of its check is zero.  elapsed(k) stands for the CPU timer's reading
     * for the k-th size.
     */
    method SweepSizes(ep: Endpoints, bidir: bool, usesGpu: bool, b: Buffers, ti: nat, elapsed: nat -> real,
                      iterations: nat, maxSize: nat, ghost keys0: set<Handle>, ghost sigs0: set<Handle>)
      returns (r: Outcome, ghost verified: seq<bool>, ghost spans: seq<seq<int>>)
      requires ti < |transList| && iterations == IterationNum(validate, numIteration)
      requires Endpoint(ep) && Provisioned(b, bidir, maxSize, keys0, sigs0)
      modifies this`err, this`exitValue, this`transList, rt
      ensures Failing(r) && old(rt.log) <= rt.log && rt.next == old(rt.next)
      ensures r.InconsistentState? ==> validate
      ensures r.Completed? ==>
        && |verified| == SweepLength(sizeList, maxSize)
        && Swept(bidir, usesGpu, b, ti, elapsed, iterations, maxSize, keys0, sigs0, old(transList), old(transList[ti]),
                 old(rt.copies), old(rt.mem[b.srcFwd]), old(exitValue), verified, spans)
    {
      r, verified, spans := Completed, [], [];
      ghost var t0, id0, src := transList[ti], rt.copies, rt.mem[b.srcFwd];
      assert SizeStart(bidir, id0, 0, iterations) == id0;
      var idx := 0;
      while idx < |sizeList|
        invariant idx == |verified| && r == Completed
        invariant old(rt.log) <= rt.log && rt.next == old(rt.next)
        invariant Swept(bidir, usesGpu, b, ti, elapsed, iterations, maxSize, keys0, sigs0, old(transList), t0, id0, src,
                        old(exitValue), verified, spans)
      {
        if sizeList[idx] > maxSize {
          break;
        }
        r, verified, spans := StepSize(idx, ep, bidir, usesGpu, b, ti, elapsed, iterations, maxSize, keys0, sigs0,
                                       old(transList), t0, id0, src, old(exitValue), verified, spans);
        if !r.Completed? {
          return;
        }
        idx := idx + 1;
      }
    }

    /** The runtime calls of AllocateCopyBuffers when it hands out src, src + 1 and src + 2. */
    function CopyAllocEvents(ep: Endpoints, src: Handle, size: nat): seq<Event>
      requires Endpoint(ep)
    {
      [Event.PoolAllocate(ep.srcPool, src, size), Event.PoolAllocate(ep.dstPool, src + 1, size), Event.SignalCreate(src + 2, 1)]
      + GrantEvents(Grants(Policy(ep.srcDev, src, ep.dstDev, src + 1)))
    }

    /**
     * The runtime calls of AllocateHostBuffers when it hands out src, src + 1
     * and src + 2 for copies between bufSrc on srcDev and bufDst on dstDev.
     */
    function HostAllocEvents(srcDev: nat, dstDev: nat, bufSrc: Handle, bufDst: Handle, src: Handle, size: nat): seq<Event>
      requires topo.Valid() && srcDev < |topo.agents| && dstDev < |topo.agents|
    {
      HostBufferEvents(true, srcDev, bufSrc, src, size) + HostBufferEvents(false, dstDev, bufDst, src + 1, size)
      + [Event.SignalCreate(src + 2, 1)]
    }

    /**
     * The runtime calls of AllocateHostBuffer for host buffer h, which a
     * copy reads from buf's device when the host is the source, and which
     * receives a copy from buf's device otherwise.
     */
    function HostBufferEvents(hostIsSource: bool, dev: nat, buf: Handle, h: Handle, size: nat): seq<Event>
      requires topo.Valid() && dev < |topo.agents|
    {
      [Event.PoolAllocate(topo.sysPool, h, size)]
      + GrantEvents(Grants(if hostIsSource then Policy(topo.cpuIndex, h, dev, buf) else Policy(dev, buf, topo.cpuIndex, h)))
    }

    /** The runtime calls of a validating transaction's host buffers and seed copy. */
    function ValidationEvents(ep: Endpoints, b: Buffers, size: nat): seq<Event>
      requires Endpoint(ep)
    {
      HostAllocEvents(ep.srcDev, ep.dstDev, b.srcFwd, b.dstFwd, b.validationSrc, size) + SeedEvents(ep, b, size)
    }

    /** The seed copy of the validation pattern from the host source into the forward source. */
    function SeedEvents(ep: Endpoints, b: Buffers, size: nat): seq<Event>
    {
      [Event.AsyncCopy(b.srcFwd, ep.srcDev, b.validationSrc, topo.cpuIndex, size, b.validationSignal),
       Event.SignalWait(b.validationSignal)]
    }

    /**
     * The copy buffers of a transaction: the forward source, destination
     * and signal, then, when bidirectional, the reverse ones with the roles
     * of the two pools swapped.
     */
    method ProvisionCopy(ep: Endpoints, bidir: bool, maxSize: nat) returns (r: Outcome, b: Buffers)
      requires Endpoint(ep) && rt.Valid() && rt.pending == map[]
      modifies this`err, rt
      ensures Failing(r) && old(rt.log) <= rt.log
      ensures r.InconsistentState? ==>
        Policy(ep.srcDev, b.srcFwd, ep.dstDev, b.dstFwd).Inconsistent?
        || (bidir && Policy(ep.dstDev, b.srcRev, ep.srcDev, b.dstRev).Inconsistent?)
      ensures r.Completed? ==>
        && rt.Valid() && rt.pending == map[] && rt.times == old(rt.times) && rt.copies == old(rt.copies)
        && b.srcFwd == old(rt.next) && b.dstFwd == b.srcFwd + 1 && b.signalFwd == b.srcFwd + 2
        && (bidir ==> b.srcRev == b.srcFwd + 3 && b.dstRev == b.srcFwd + 4 && b.signalRev == b.srcFwd + 5)
        && rt.next == old(rt.next) + (if bidir then 6 else 3)
        && rt.signals == (if bidir then old(rt.signals)[b.signalFwd := 1][b.signalRev := 1]
                          else old(rt.signals)[b.signalFwd := 1])
        && (var m := old(rt.mem)[b.srcFwd := Fill(0, maxSize)][b.dstFwd := Fill(0, maxSize)];
            rt.mem == if bidir then m[b.srcRev := Fill(0, maxSize)][b.dstRev := Fill(0, maxSize)] else m)
        && rt.log == old(rt.log) + CopyAllocEvents(ep, b.srcFwd, maxSize)
                     + (if bidir then CopyAllocEvents(Reverse(ep), b.srcRev, maxSize) else [])
    {
      var src, dst, signal;
      r, src, dst, signal := AllocateCopyBuffers(maxSize, ep);
      b := Buffers(src, dst, signal, 0, 0, 0, 0, 0, 0);
      if !r.Completed? || !bidir {
        return;
      }
      var srcRev, dstRev, signalRev;
      r, srcRev, dstRev, signalRev := AllocateCopyBuffers(maxSize, Reverse(ep));
      b := Buffers(src, dst, signal, srcRev, dstRev, signalRev, 0, 0, 0);
    }

    /**
     * The host buffers of a validating transaction, then the seed copy of
     * the validation pattern from the host source into the forward source,
     * on the validation signal as created (armed to 1).
     */
    method ProvisionHost(ep: Endpoints, b: Buffers, maxSize: nat) returns (r: Outcome, b': Buffers)
      requires Endpoint(ep) && rt.Valid() && rt.pending == map[]
      requires b.srcFwd in rt.mem && b.dstFwd in rt.mem && |rt.mem[b.srcFwd]| == maxSize
      modifies this`err, rt
      ensures Failing(r) && old(rt.log) <= rt.log
      ensures r.InconsistentState? ==>
        Policy(topo.cpuIndex, b'.validationSrc, ep.srcDev, b.srcFwd).Inconsistent?
        || Policy(ep.dstDev, b.dstFwd, topo.cpuIndex, b'.validationDst).Inconsistent?
      ensures r.Completed? ==>
        && rt.Valid() && rt.pending == map[]
        && b' == b.(validationSrc := old(rt.next), validationDst := old(rt.next) + 1, validationSignal := old(rt.next) + 2)
        && rt.next == old(rt.next) + 3 && rt.copies == old(rt.copies) + 1
        && rt.mem == old(rt.mem)[b'.validationSrc := Fill(VALIDATION_PATTERN, maxSize)]
                               [b'.validationDst := Fill(CLEAR_PATTERN, maxSize)]
                               [b.srcFwd := rt.Delivered(old(rt.copies), Fill(VALIDATION_PATTERN, maxSize))]
        && rt.signals == old(rt.signals)[b'.validationSignal := 0]
        && rt.times == old(rt.times)[b'.validationSignal := rt.timing(old(rt.copies))]
        && rt.log == old(rt.log) + ValidationEvents(ep, b', maxSize)
    {
      rt.LiveBelowNext(b.srcFwd);
      var src, dst, signal;
      r, src, dst, signal := AllocateHostBuffers(maxSize, ep.srcDev, ep.dstDev, b.srcFwd, b.dstFwd);
      b' := Buffers(b.srcFwd, b.dstFwd, b.signalFwd, b.srcRev, b.dstRev, b.signalRev, src, dst, signal);
      if !r.Completed? {
        return;
      }
      r := Seed(ep, b', maxSize);
      if r.Completed? {
        AppendAssoc(old(rt.log), HostAllocEvents(ep.srcDev, ep.dstDev, b.srcFwd, b.dstFwd, src, maxSize),
                    SeedEvents(ep, b', maxSize));
      }
    }

    /**
     * The seed copy: the validation pattern in the host source is copied
     * into the forward device source, on the validation signal as created
     * (armed to 1).
     */
    method Seed(ep: Endpoints, b: Buffers, maxSize: nat) returns (r: Outcome)
      requires Endpoint(ep) && rt.Valid() && rt.pending == map[]
      requires b.srcFwd in rt.mem && |rt.mem[b.srcFwd]| == maxSize
      requires b.validationSrc in rt.mem && rt.mem[b.validationSrc] == Fill(VALIDATION_PATTERN, maxSize)
      requires b.validationSignal in rt.signals && rt.signals[b.validationSignal] == 1
      modifies this`err, rt
      ensures Failing(r) && !r.InconsistentState? && old(rt.log) <= rt.log && rt.next == old(rt.next)
      ensures r.Completed? ==>
        && rt.Valid() && rt.pending == map[] && rt.copies == old(rt.copies) + 1
        && rt.mem == old(rt.mem)[b.srcFwd := rt.Delivered(old(rt.copies), Fill(VALIDATION_PATTERN, maxSize))]
        && rt.signals == old(rt.signals)[b.validationSignal := 0]
        && rt.times == old(rt.times)[b.validationSignal := rt.timing(old(rt.copies))]
        && rt.log == old(rt.log) + SeedEvents(ep, b, maxSize)
    {
      assert rt.mem[b.validationSrc][..maxSize] == Fill(VALIDATION_PATTERN, maxSize);
      assert rt.Delivered(rt.copies, rt.mem[b.validationSrc][..maxSize]) + rt.mem[b.srcFwd][maxSize..]
          == rt.Delivered(rt.copies, Fill(VALIDATION_PATTERN, maxSize));
      r := CopyBuffer(b.srcFwd, ep.srcDev, b.validationSrc, topo.cpuIndex, maxSize, b.validationSignal);
    }

    /** The copy buffers of a transaction, allocated from next0 on over buffers below next0: keys and sizes. */
    lemma CopyLayout(m0: map<Handle, seq<bv8>>, s0: map<Handle, int>, mem1: map<Handle, seq<bv8>>,
                     sigs1: map<Handle, int>, b: Buffers, bidir: bool, maxSize: nat)
      requires b.srcFwd < b.dstFwd < b.signalFwd && (bidir ==> b.signalFwd < b.srcRev < b.dstRev < b.signalRev)
      requires mem1 == (var m := m0[b.srcFwd := Fill(0, maxSize)][b.dstFwd := Fill(0, maxSize)];
                        if bidir then m[b.srcRev := Fill(0, maxSize)][b.dstRev := Fill(0, maxSize)] else m)
      requires sigs1 == (if bidir then s0[b.signalFwd := 1][b.signalRev := 1] else s0[b.signalFwd := 1])
      ensures mem1.Keys == m0.Keys + HeldKeys(b, bidir, false)
      ensures sigs1.Keys == s0.Keys + HeldSignals(b, bidir, false)
      ensures |mem1[b.srcFwd]| == maxSize && |mem1[b.dstFwd]| == maxSize
      ensures bidir ==> |mem1[b.srcRev]| == maxSize && |mem1[b.dstRev]| == maxSize
    {
      if bidir {
        assert mem1.Keys == m0.Keys + {b.srcFwd, b.dstFwd, b.srcRev, b.dstRev};
        assert sigs1.Keys == s0.Keys + {b.signalFwd, b.signalRev};
      } else {
        assert mem1.Keys == m0.Keys + {b.srcFwd, b.dstFwd};
        assert sigs1.Keys == s0.Keys + {b.signalFwd};
      }
    }

    /** The host pair and the seed over the copy buffers: keys, sizes and contents. */
    lemma HostLayout(mem1: map<Handle, seq<bv8>>, mem: map<Handle, seq<bv8>>, faithful: bool, seeded: seq<bv8>,
                     b: Buffers, bidir: bool, maxSize: nat)
      requires Increasing(b, bidir, true)
      requires b.srcFwd in mem1 && b.dstFwd in mem1 && |mem1[b.dstFwd]| == maxSize
      requires bidir ==> b.srcRev in mem1 && b.dstRev in mem1 && |mem1[b.srcRev]| == maxSize && |mem1[b.dstRev]| == maxSize
      requires |seeded| == maxSize && (faithful ==> seeded == Fill(VALIDATION_PATTERN, maxSize))
      requires mem == mem1[b.validationSrc := Fill(VALIDATION_PATTERN, maxSize)]
                          [b.validationDst := Fill(CLEAR_PATTERN, maxSize)][b.srcFwd := seeded]
      ensures mem.Keys == mem1.Keys + {b.validationSrc, b.validationDst}
      ensures |mem[b.srcFwd]| == maxSize && |mem[b.dstFwd]| == maxSize
      ensures bidir ==> |mem[b.srcRev]| == maxSize && |mem[b.dstRev]| == maxSize
      ensures |mem[b.validationDst]| == maxSize && mem[b.validationSrc] == Fill(VALIDATION_PATTERN, maxSize)
      ensures faithful ==> mem[b.srcFwd] == Fill(VALIDATION_PATTERN, maxSize)
    {
    }

    /**
     * The layout provisioning leaves behind, from the runtime's buffers and
     * signals before it: the copy buffers of full size, and when validating
     * the host pair and the seeded device source.
     */
    lemma ProvisionedLayout(m0: map<Handle, seq<bv8>>, s0: map<Handle, int>, next0: nat,
                            mem1: map<Handle, seq<bv8>>, sigs1: map<Handle, int>,
                            mem: map<Handle, seq<bv8>>, sigs: map<Handle, int>, faithful: bool, seeded: seq<bv8>,
                            b: Buffers, bidir: bool, maxSize: nat)
      requires forall h :: h in m0 ==> h < next0
      requires forall h :: h in s0 ==> h < next0
      requires b.srcFwd == next0 && b.dstFwd == next0 + 1 && b.signalFwd == next0 + 2
      requires bidir ==> b.srcRev == next0 + 3 && b.dstRev == next0 + 4 && b.signalRev == next0 + 5
      requires validate ==>
        b.validationSrc == next0 + (if bidir then 6 else 3) && b.validationDst == b.validationSrc + 1
        && b.validationSignal == b.validationSrc + 2
      requires mem1 == (var m := m0[b.srcFwd := Fill(0, maxSize)][b.dstFwd := Fill(0, maxSize)];
                        if bidir then m[b.srcRev := Fill(0, maxSize)][b.dstRev := Fill(0, maxSize)] else m)
      requires sigs1 == (if bidir then s0[b.signalFwd := 1][b.signalRev := 1] else s0[b.signalFwd := 1])
      requires |seeded| == maxSize && (faithful ==> seeded == Fill(VALIDATION_PATTERN, maxSize))
      requires mem == if validate
                      then mem1[b.validationSrc := Fill(VALIDATION_PATTERN, maxSize)]
                               [b.validationDst := Fill(CLEAR_PATTERN, maxSize)][b.srcFwd := seeded]
                      else mem1
      requires sigs == if validate then sigs1[b.validationSignal := 0] else sigs1
      ensures Layout(mem, sigs.Keys, faithful, b, bidir, maxSize, m0.Keys, s0.Keys)
    {
      assert Increasing(b, bidir, validate);
      CopyLayout(m0, s0, mem1, sigs1, b, bidir, maxSize);
      if validate {
        HostLayout(mem1, mem, faithful, seeded, b, bidir, maxSize);
        assert HeldKeys(b, bidir, true) == HeldKeys(b, bidir, false) + {b.validationSrc, b.validationDst};
        assert sigs.Keys == sigs1.Keys + {b.validationSignal};
      }
      HeldAreFresh(b, bidir, m0.Keys, next0);
      HeldAreFresh(b, bidir, s0.Keys, next0);
    }

    /** Handles handed out from next0 on are disjoint from any set of handles below next0. */
    lemma HeldAreFresh(b: Buffers, bidir: bool, keys: set<Handle>, next0: nat)
      requires Increasing(b, bidir, validate) && b.srcFwd >= next0
      requires forall h :: h in keys ==> h < next0
      ensures keys !! HeldKeys(b, bidir, validate) && keys !! HeldSignals(b, bidir, validate)
    {
    }

    /**
     * Provisioning of a transaction: the copy buffers and, when validating,
     * the host buffers and the seed copy.  Afterwards the transaction holds
     * exactly HandleCount fresh buffers and signals, every buffer of the
     * largest size, and the sweep can start.
     */
    method Provision(ep: Endpoints, bidir: bool, maxSize: nat) returns (r: Outcome, b: Buffers)
      requires Endpoint(ep) && rt.Valid() && rt.pending == map[]
      modifies this`err, rt
      ensures Failing(r) && old(rt.log) <= rt.log
      ensures r.Completed? ==>
        && Provisioned(b, bidir, maxSize, old(rt.mem).Keys, old(rt.signals).Keys)
        && b.srcFwd == old(rt.next) && rt.next == old(rt.next) + HandleCount(bidir, validate)
        && rt.copies == old(rt.copies) + (if validate then 1 else 0)
        && (validate ==> rt.mem[b.srcFwd] == rt.Delivered(old(rt.copies), Fill(VALIDATION_PATTERN, maxSize)))
        && rt.log == old(rt.log) + CopyAllocEvents(ep, b.srcFwd, maxSize)
                     + (if bidir then CopyAllocEvents(Reverse(ep), b.srcRev, maxSize) else [])
                     + (if validate then ValidationEvents(ep, b, maxSize) else [])
    {
      ghost var m0, s0, next0 := rt.mem, rt.signals, rt.next;
      forall h | h in m0 ensures h < next0 {
        rt.LiveBelowNext(h);
      }
      forall h | h in s0 ensures h < next0 {
        rt.LiveBelowNext(h);
      }
      r, b := ProvisionCopy(ep, bidir, maxSize);
      if !r.Completed? {
        return;
      }
      ghost var mem1, sigs1, copies1 := rt.mem, rt.signals, rt.copies;
      if validate {
        r, b := ProvisionHost(ep, b, maxSize);
        if !r.Completed? {
          return;
        }
      }
      ProvisionedLayout(m0, s0, next0, mem1, sigs1, rt.mem, rt.signals, rt.Faithful(),
                        rt.Delivered(copies1, Fill(VALIDATION_PATTERN, maxSize)), b, bidir, maxSize);
    }

    /**
     * The teardown at the end of RunCopyBenchmark: ReleaseBuffers for the
     * copy buffers and signals, then, when validating, ReleaseBuffers as a
     * one-direction release of the host pair and the validation signal.
     */
    method Teardown(bidir: bool, b: Buffers, ghost maxSize: nat, ghost keys0: set<Handle>, ghost sigs0: set<Handle>)
      returns (r: Outcome)
      requires Provisioned(b, bidir, maxSize, keys0, sigs0)
      modifies this`err, rt`calls, rt`mem, rt`signals, rt`times, rt`log
      ensures Failing(r) && !r.InconsistentState? && old(rt.log) <= rt.log && rt.next == old(rt.next)
      ensures r.Completed? ==>
        && rt.Valid() && rt.pending == map[] && rt.mem.Keys == keys0 && rt.signals.Keys == sigs0
        && rt.log == old(rt.log) + FreeEvents(b.srcFwd, b.dstFwd, b.signalFwd)
                     + (if bidir then FreeEvents(b.srcRev, b.dstRev, b.signalRev) else [])
                     + (if validate then FreeEvents(b.validationSrc, b.validationDst, b.validationSignal) else [])
    {
      r := ReleaseCopyBuffers(bidir, b, maxSize, keys0, sigs0);
      if !r.Completed? || !validate {
        return;
      }
      ghost var log1 := rt.log;
      r := ReleaseBuffers(false, b.validationSrc, 0, b.validationDst, 0, b.validationSignal, 0);
      if r.Completed? {
        assert rt.log == log1 + FreeEvents(b.validationSrc, b.validationDst, b.validationSignal);
        assert rt.mem.Keys == keys0;
        assert rt.signals.Keys == sigs0;
      }
    }

    /**
     * The first release of the teardown: the copy buffers and signals go, and
     * what is left of the transaction is its host pair and validation signal.
     */
    method ReleaseCopyBuffers(bidir: bool, b: Buffers, ghost maxSize: nat, ghost keys0: set<Handle>,
                              ghost sigs0: set<Handle>) returns (r: Outcome)
      requires Provisioned(b, bidir, maxSize, keys0, sigs0)
      modifies this`err, rt`calls, rt`mem, rt`signals, rt`times, rt`log
      ensures Failing(r) && !r.InconsistentState? && old(rt.log) <= rt.log && rt.next == old(rt.next)
      ensures r.Completed? ==>
        && rt.Valid() && rt.pending == map[]
        && rt.mem.Keys == keys0 + (if validate then {b.validationSrc, b.validationDst} else {})
        && rt.signals.Keys == sigs0 + (if validate then {b.validationSignal} else {})
        && (validate ==> b.validationSrc != b.validationDst && b.validationSrc !in keys0
                         && b.validationDst !in keys0 && b.validationSignal !in sigs0)
        && rt.log == old(rt.log) + FreeEvents(b.srcFwd, b.dstFwd, b.signalFwd)
                     + (if bidir then FreeEvents(b.srcRev, b.dstRev, b.signalRev) else [])
    {
      r := ReleaseBuffers(bidir, b.srcFwd, b.srcRev, b.dstFwd, b.dstRev, b.signalFwd, b.signalRev);
    }

    /** The two ends of a copy request: the owning agent of each pool and the pools themselves. */
    function RequestEndpoints(c: CopyRequest): (ep: Endpoints)
      requires c.srcIdx < |topo.pools| && c.dstIdx < |topo.pools|
    {
      Endpoints(topo.pools[c.srcIdx].agentIndex, topo.pools[c.dstIdx].agentIndex, c.srcPool, c.dstPool)
    }

    /**
     * RunCopyBenchmark for transaction ti: provision the buffers and signals
     * at the largest size, sweep the sizes, and release everything.  When
     * it completes, exactly the buffers and signals that were live before
     * are live again, nothing is in flight, and the transaction holds the
     * recorded results of every size the sweep processed.
     */
    method RunCopyBenchmark(ti: nat, elapsed: nat -> real) returns (r: Outcome, ghost verified: seq<bool>, ghost spans: seq<seq<int>>)
      requires ti < |transList| && |sizeList| > 0 && topo.Valid()
      requires transList[ti].copy.srcIdx < |topo.pools| && transList[ti].copy.dstIdx < |topo.pools|
      requires rt.Valid() && rt.pending == map[]
      modifies this`err, this`exitValue, this`transList, rt
      ensures Failing(r) && old(rt.log) <= rt.log
      ensures r.Completed? ==>
        var c := old(transList[ti]).copy;
        var iterations := IterationNum(validate, numIteration);
        && rt.Valid() && rt.pending == map[]
        && rt.mem.Keys == old(rt.mem).Keys && rt.signals.Keys == old(rt.signals).Keys
        && rt.next == old(rt.next) + HandleCount(c.bidir, validate)
        && |verified| == SweepLength(sizeList, sizeList[|sizeList| - 1])
        && Measured(verified, spans, iterations, GpuOn(c.usesGpu), rt.OrderedTiming())
        && transList == old(transList)[ti := Recorded(old(transList[ti]), elapsed, verified, spans, iterations, GpuOn(c.usesGpu))]
        && ((!validate || rt.Faithful()) ==> forall k :: 0 <= k < |verified| ==> verified[k])
        && (if false in verified then validate && exitValue != 0 else exitValue == old(exitValue))
        && (validate ==> Checked(verified, c.bidir, old(rt.copies) + 1,
                                 rt.Delivered(old(rt.copies), Fill(VALIDATION_PATTERN, sizeList[|sizeList| - 1])), iterations))
        && rt.copies == SizeStart(c.bidir, old(rt.copies) + (if validate then 1 else 0), |verified|, iterations)
        && SizeSpans(spans, c.bidir, old(rt.copies) + (if validate then 1 else 0), iterations)
    {
      verified, spans := [], [];
      var c := transList[ti].copy;
      var maxSize := sizeList[|sizeList| - 1];
      var ep := RequestEndpoints(c);
      ghost var keys0, sigs0 := rt.mem.Keys, rt.signals.Keys;
      var b;
      r, b := Provision(ep, c.bidir, maxSize);
      if !r.Completed? {
        return;
      }
      var iterations := IterationNum(validate, numIteration);
      ghost var id0, src, exit := rt.copies, rt.mem[b.srcFwd], exitValue;
      r, verified, spans := SweepSizes(ep, c.bidir, c.usesGpu, b, ti, elapsed, iterations, maxSize, keys0, sigs0);
      if !r.Completed? {
        return;
      }
      assert Checked(verified, c.bidir, id0, src, iterations) && SizeSpans(spans, c.bidir, id0, iterations);
      assert rt.copies == SizeStart(c.bidir, id0, |verified|, iterations);
      assert Progress(verified, spans, iterations, GpuOn(c.usesGpu), rt.OrderedTiming(), !validate || rt.Faithful(),
                      validate, exitValue, exit);
      r := Teardown(c.bidir, b, maxSize, keys0, sigs0);
    }

    /** A copy request whose pools are entries of the pool list. */
    ghost predicate Runnable(t: Transaction)
    {
      Route(t.reqType) == CopyPath ==> t.copy.srcIdx < |topo.pools| && t.copy.dstIdx < |topo.pools|
    }

    /**
     * What Run leaves in a transaction that was t0, its copies numbered from
     * id0 on and the next copy number id1 afterwards: for a copy kind, the
     * results the sweep recorded, one per size of the list up to the
     * largest, measured as Measured says, each size's spans those of its own
     * copies (after the seed copy when validating), every size passed when
     * validation is off or copies are faithful, and, when validating, each
     * size's verdict that of its memcmp; any other kind is untouched and
     * issues no copy.
     */
    ghost predicate Dispatched(t0: Transaction, t: Transaction, elapsed: nat -> real, verified: seq<bool>,
                               spans: seq<seq<int>>, id0: nat, id1: nat)
    {
      if Route(t0.reqType) == CopyPath then
        var iterations := IterationNum(validate, numIteration);
        var first := id0 + (if validate then 1 else 0);
        && |sizeList| > 0 && |verified| == SweepLength(sizeList, sizeList[|sizeList| - 1])
        && Measured(verified, spans, iterations, GpuOn(t0.copy.usesGpu), rt.OrderedTiming())
        && t == Recorded(t0, elapsed, verified, spans, iterations, GpuOn(t0.copy.usesGpu))
        && ((!validate || rt.Faithful()) ==> forall k :: 0 <= k < |verified| ==> verified[k])
        && (validate ==> Checked(verified, t0.copy.bidir, first,
                                 rt.Delivered(id0, Fill(VALIDATION_PATTERN, sizeList[|sizeList| - 1])), iterations))
        && id1 == SizeStart(t0.copy.bidir, first, |verified|, iterations)
        && SizeSpans(spans, t0.copy.bidir, first, iterations)
      else
        t == t0 && verified == [] && spans == [] && id1 == id0
    }

    /**
     * One transaction of Run: a copy kind runs RunCopyBenchmark; a read or
     * write kind belongs to the I/O benchmark, which is not part of this
     * model and leaves the transaction as it is.  The exit value changes
     * exactly when a size failed validation.
     */
    method RunTransaction(ti: nat, elapsed: nat -> real) returns (r: Outcome, ghost verified: seq<bool>, ghost spans: seq<seq<int>>)
      requires ti < |transList| && |sizeList| > 0 && topo.Valid() && Runnable(transList[ti])
      requires rt.Valid() && rt.pending == map[]
      modifies this`err, this`exitValue, this`transList, rt
      ensures Failing(r) && old(rt.log) <= rt.log
      ensures r.Completed? ==>
        && rt.Valid() && rt.pending == map[]
        && rt.mem.Keys == old(rt.mem).Keys && rt.signals.Keys == old(rt.signals).Keys
        && |transList| == |old(transList)| && transList == old(transList)[ti := transList[ti]]
        && Dispatched(old(transList[ti]), transList[ti], elapsed, verified, spans, old(rt.copies), rt.copies)
        && (if false in verified then validate && exitValue != 0 else exitValue == old(exitValue))
    {
      verified, spans := [], [];
      var t := transList[ti];
      if Route(t.reqType) != CopyPath {
        return Completed, verified, spans;
      }
      r, verified, spans := RunCopyBenchmark(ti, elapsed);
    }

    /** The CPU timer's readings for the sizes of transaction t, out of Run's readings for all transactions. */
    function Readings(elapsed: (nat, nat) -> real, t: nat): nat -> real
    {
      (k: nat) => elapsed(t, k)
    }

    /** Some size of some transaction failed validation. */
    ghost predicate AnyFailed(verified: seq<seq<bool>>)
    {
      exists k :: 0 <= k < |verified| && false in verified[k]
    }

    /** One more transaction, with the verdicts of its sizes. */
    lemma AnyFailedSnoc(verified: seq<seq<bool>>, v: seq<bool>)
      ensures AnyFailed(verified + [v]) <==> AnyFailed(verified) || false in v
    {
      var w := verified + [v];
      if AnyFailed(verified) {
        var k :| 0 <= k < |verified| && false in verified[k];
        assert w[k] == verified[k];
      }
      if false in v {
        assert w[|verified|] == v;
      }
    }

    /**
     * Run after its first |verified| transactions, started from the
     * transaction list list0 at copy number copies0 with the buffers keys0,
     * the signals sigs0 and the exit value exitValue0: nothing is held or in
     * flight beyond what was, the transactions run so far are Dispatched
     * from their own copy numbers, the rest are untouched, and the exit
     * value has changed exactly when a size failed validation.
     */
    ghost predicate Dispatching(elapsed: (nat, nat) -> real, list0: seq<Transaction>, copies0: nat,
                                keys0: set<Handle>, sigs0: set<Handle>, exitValue0: int,
                                verified: seq<seq<bool>>, spans: seq<seq<seq<int>>>, starts: seq<nat>)
      reads this, rt
    {
      && |verified| == |spans| == |starts| - 1 <= |transList| == |list0|
      && rt.Valid() && rt.pending == map[] && rt.mem.Keys == keys0 && rt.signals.Keys == sigs0
      && starts[0] == copies0 && starts[|verified|] == rt.copies
      && (forall k :: 0 <= k < |verified| ==>
            Dispatched(list0[k], transList[k], Readings(elapsed, k), verified[k], spans[k], starts[k], starts[k + 1]))
      && (forall k :: |verified| <= k < |transList| ==> transList[k] == list0[k])
      && (if AnyFailed(verified) then validate && exitValue != 0 else exitValue == exitValue0)
    }

    /** The loop body of Run: the next transaction, dispatched. */
    method StepTransaction(idx: nat, elapsed: (nat, nat) -> real, ghost list0: seq<Transaction>, ghost copies0: nat,
                           ghost keys0: set<Handle>, ghost sigs0: set<Handle>, ghost exitValue0: int,
                           ghost verified: seq<seq<bool>>, ghost spans: seq<seq<seq<int>>>, ghost starts: seq<nat>)
      returns (r: Outcome, ghost verified': seq<seq<bool>>, ghost spans': seq<seq<seq<int>>>, ghost starts': seq<nat>)
      requires idx == |verified| < |transList| && |sizeList| > 0 && topo.Valid()
      requires Dispatching(elapsed, list0, copies0, keys0, sigs0, exitValue0, verified, spans, starts)
      requires Runnable(list0[idx])
      modifies this`err, this`exitValue, this`transList, rt
      ensures Failing(r) && old(rt.log) <= rt.log
      ensures r.Completed? ==>
        && |verified'| == idx + 1
        && Dispatching(elapsed, list0, copies0, keys0, sigs0, exitValue0, verified', spans', starts')
    {
      ghost var v, sp;
      r, v, sp := RunTransaction(idx, Readings(elapsed, idx));
      verified', spans', starts' := verified + [v], spans + [sp], starts + [rt.copies];
      if !r.Completed? {
        return;
      }
      AnyFailedSnoc(verified, v);
      forall k | 0 <= k < |verified'|
        ensures Dispatched(list0[k], transList[k], Readings(elapsed, k), verified'[k], spans'[k], starts'[k], starts'[k + 1])
      {
        if k < idx {
          assert verified'[k] == verified[k] && spans'[k] == spans[k] && starts'[k] == starts[k] && starts'[k + 1] == starts[k + 1];
        }
      }
    }

    /**
     * Run: with GPU timing on, enable copy profiling first and disable it
     * last; in between, each transaction in turn.  When it completes, the
     * runtime holds exactly the buffers and signals it held before, every
     * copy transaction holds the results its sweep recorded from its own
     * copies (transaction k's copies numbered from starts[k] to
     * starts[k + 1]), any other transaction is untouched, and the exit value
     * has changed exactly when a size of some transaction failed validation.
     * elapsed(t, k) stands for the CPU timer's reading for size k of
     * transaction t.
     */
    method Run(elapsed: (nat, nat) -> real)
      returns (r: Outcome, ghost verified: seq<seq<bool>>, ghost spans: seq<seq<seq<int>>>, ghost starts: seq<nat>)
      requires |sizeList| > 0 && topo.Valid() && rt.Valid() && rt.pending == map[]
      requires forall k :: 0 <= k < |transList| ==> Runnable(transList[k])
      modifies this`err, this`exitValue, this`transList, rt
      ensures Failing(r) && old(rt.log) <= rt.log
      ensures r.Completed? ==>
        && rt.Valid() && rt.pending == map[]
        && rt.mem.Keys == old(rt.mem).Keys && rt.signals.Keys == old(rt.signals).Keys
        && |transList| == |old(transList)| == |verified| == |spans| == |starts| - 1
        && starts[0] == old(rt.copies) && starts[|transList|] == rt.copies
        && (forall k :: 0 <= k < |transList| ==>
              Dispatched(old(transList[k]), transList[k], Readings(elapsed, k), verified[k], spans[k],
                         starts[k], starts[k + 1]))
        && (if AnyFailed(verified) then validate && exitValue != 0 else exitValue == old(exitValue))
      ensures r.Completed? && !printCpuTime ==>
        |rt.log| >= |old(rt.log)| + 2 && rt.log[|old(rt.log)|] == Event.ProfilingEnable(true)
        && rt.LastEvent() == Event.ProfilingEnable(false)
    {
      verified, spans, starts := [], [], [rt.copies];
      if !printCpuTime {
        err := rt.ProfilingEnable(true);
        if err != HSA_STATUS_SUCCESS {
          return Fatal(err), verified, spans, starts;
        }
      }
      ghost var log1 := rt.log;
      var idx := 0;
      while idx < |transList|
        invariant idx == |verified| && old(rt.log) <= log1 <= rt.log
        invariant forall k :: 0 <= k < |old(transList)| ==> Runnable(old(transList)[k])
        invariant Dispatching(elapsed, old(transList), old(rt.copies), old(rt.mem).Keys, old(rt.signals).Keys,
                              old(exitValue), verified, spans, starts)
      {
        r, verified, spans, starts := StepTransaction(idx, elapsed, old(transList), old(rt.copies), old(rt.mem).Keys,
                                                      old(rt.signals).Keys, old(exitValue), verified, spans, starts);
        if !r.Completed? {
          return;
        }
        idx := idx + 1;
      }
      if !printCpuTime {
        err := rt.ProfilingEnable(false);
        if err != HSA_STATUS_SUCCESS {
          return Fatal(err), verified, spans, starts;
        }
      }
      r := Completed;
    }
  }
}
