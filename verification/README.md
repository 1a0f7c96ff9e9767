# rocm_bandwidth_test copy engine, in Dafny

This project models the copy benchmark of `rocm_bandwidth_test`. The
benchmark measures how fast the ROCm (HSA) runtime moves buffers between
memory pools of the host and its accelerators. For each requested copy
transaction it does the following:

- it allocates a source buffer, a destination buffer and a completion signal
  at the largest size of the sweep, for one direction or for both;
- it grants the devices access to each other's buffers according to the
  access matrix;
- when validating, it adds a host buffer pair seeded with `0x23` and cleared to
  `0x00`, and copies the seed into the device source;
- it sweeps the buffer sizes in order (1 KiB up to 512 MiB). Each size runs
  `GetIterationNum()` iterations, and each iteration does the following in order:
  - arm the signals;
  - re-grant access when validating;
  - issue the copies and wait for them;
  - when validating, copy the destination back and compare it with `memcmp`;
  - read the device timestamps;
- it records one CPU time and, when device timing is on, one GPU time per size;
- it releases every buffer and signal.

`Run` enables copy profiling, dispatches each transaction by kind, and
disables profiling.

The model has six modules:

- `Sweep`: `SIZE_LIST`, the number of sweep entries the copy loop processes,
  and `GetIterationNum`.
- `Access`: the discovered topology (agents, pools, access matrix, host index,
  system pool) and the decision rule of `AcquirePoolAcceses`.
- `Timing`: the device-span arithmetic of `GetGpuCopyTime`, `DBL_MAX`, and the
  accumulated GPU time.
- `Bytes`: `memset` and `memcmp` on byte sequences.
- `Hsa`: the part of the HSA runtime the benchmark calls, as a class `Runtime`.
  It holds the live buffers with their bytes, the live signals with their
  values, the copies in flight, the timestamps and a ghost log of calls.
  - Each runtime rule the benchmark must respect is a precondition. Free only
    live, idle buffers. Copy only between live buffers that are large enough.
    Issue a copy only on a signal armed to 1 with nothing in flight. Wait only
    on a copy in flight.
  - The platform's choices are oracles fixed at construction:
    - `status`: the status each fallible call returns;
    - `noise`: the bytes a copy corrupts, XOR-ed in, all zero for a faithful
      copy;
    - `timing`: the device timestamps of each copy.
- `Engine`: the benchmark object `BandwidthTest`. Its methods mirror the source
  functions: `AcquireAccess`, `AcquirePoolAccesses`, `AllocateCopyBuffers`,
  `AllocateHostBuffers`, `ReleaseBuffers`, `CopyBuffer`, `GetGpuCopyTime`,
  `RunCopyBenchmark` and `Run`. The long body of `RunCopyBenchmark` is split
  into provisioning, the size sweep, one size, one iteration and teardown. Each
  step ends in an `Outcome`:
  - `Completed`;
  - `Fatal(code)`: `ErrorCheck` rejected a nonzero status, which is also left
    in `err`;
  - `InconsistentState`: the access-policy assertion fired.

What the contracts establish:

- **Balance.** A completed `RunCopyBenchmark` or `Run` leaves the runtime with
  exactly the buffers and signals it had before and no copy in flight.
  `RunCopyBenchmark` consumes exactly `HandleCount` fresh handles: three per
  direction and three for validation.
- **Arming.** Every copy is issued on a signal armed to 1 that has no copy in
  flight. This is the precondition of `Hsa.Runtime.AsyncCopy`, and the model
  meets it at every call site.
- **Call sequence.** The steps from a single runtime call up to one size's
  iterations (`RunIterations`), and provisioning and teardown, state the
  exact runtime calls they make, as a ghost log. For example,
  `AllocateCopyBuffers` makes two allocations, one signal creation armed to
  1, and then the policy's grants. `RunIterations` makes the calls of each
  passed iteration in turn, then those of a failed one up to its check. The
  steps above it (`RunSize`, `MeasureSize`, `StepSize`, `SweepSizes`,
  `RunCopyBenchmark`, `RunTransaction`, `Run`) state only that the log
  grows. `Run` also states that profiling is enabled first and disabled
  last.
- **Sweep.** All 20 `SIZE_LIST` entries are processed, so the "Illegal DMA
  buffer size" exit is never taken. The iteration count satisfies the law
  `floor(1.2 n) + 1` (13 for n = 10), or is 1 when validating.
- **Result recording.** Each processed size appends one CPU time, the
  aggregate time over the iteration count, to both CPU series, so min equals
  mean. It appends one GPU time to both GPU series exactly when
  `!print_cpu_time_ && uses_gpu_`. That GPU time is `DBL_MAX` exactly for a
  size whose validation failed.
- **Device time.** The spans summed for a size are the `GetGpuCopyTime`
  spans of that size's own copies: iteration i of size k contributes
  `IterationSpan` of copy number `CopyOfIteration(SizeStart(k), i)` (the
  predicate `SizeSpans`). This is stated from one size up to `Run`, so a
  recorded GPU time is the total of the device spans of the size's copies
  over the iteration count. `RunCopyBenchmark` and `Run` also state the
  number of copies issued: after the seed copy when validating, exactly the
  copies of every iteration of every processed size, transaction after
  transaction.
- **Validation.**
  - The host source holds `0x23` and the host destination starts at `0x00`.
  - A mismatch in `memcmp` sets `verify` to false and `exit_value_` to the
    `memcmp` result, and stops that size's iterations. The next size starts
    again with `verify` true.
  - When validating, a size passes exactly when `memcmp` of the host seed
    against what came back is 0. That verdict is stated at every level: the
    check, the iteration, the loop of iterations, the size, the sweep and
    `RunCopyBenchmark`. At the sweep level, size k passes exactly when
    `memcmp` of the pattern against what its copies delivered is 0. These are
    the forward copy of the seeded source, and then the copy back to the
    host.
  - Copies are numbered in issue order. Every size issues the copies of all
    its iterations, since a validating sweep runs one iteration per size.
    Size k therefore starts at copy `k * iterations * CopiesPerIteration`
    after the sweep's first copy.
  - With faithful copies every size passes. In the check itself, a size
    passes exactly when the device destination holds the pattern.

## Model

| member | source | states |
|---|---|---|
| Sweep.SizeList | rocm_bandwidth_test.cpp:55-63 | twenty sizes, the first 1024, each twice the previous, every one below 2^32 |
| Sweep.SizeListClosedForm | rocm_bandwidth_test.cpp:55-63 | entry i of the sweep is 1024 * 2^i |
| Sweep.SizeListAscending | rocm_bandwidth_test.cpp:55-63 | the sweep is strictly ascending, so its last entry is its largest |
| Sweep.SweepLength | rocm_bandwidth_test.cpp:295-302 | the copy loop processes a prefix of the size list: every processed size is at most max_size, and the loop stops only at a size above max_size |
| Sweep.SizeListFullyProcessed | rocm_bandwidth_test.cpp:224-302 | with max_size the last entry of SIZE_LIST, all 20 sizes are processed; the illegal-size branch is never taken |
| Sweep.IterationNum | rocm_bandwidth_test.cpp:65-67 | at least one iteration; exactly one when validating; otherwise r - 1 is the floor of 1.2 times the configured count (5(r-1) <= 6n < 5r) |
| Sweep.IterationNumOfTen | rocm_bandwidth_test.cpp:65-67 | ten configured iterations run thirteen times, or once when validating |
| Access.MatrixIndexInRange | rocm_bandwidth_test.cpp:79 | the row-major index src * agent_index_ + dst lies inside the n-by-n access matrix |
| Access.AccessPolicy | rocm_bandwidth_test.cpp:74-97 | inconsistent exactly when the matrix entry is not 2 and neither side is the host; two grants exactly on entry 2, otherwise one; every grant lets one side reach the other side's buffer |
| Access.HostAcceleratorSingleGrant | rocm_bandwidth_test.cpp:85-95 | between the host and an accelerator without entry 2, exactly one grant: the accelerator gets access to the host's buffer |
| Access.BothDirectionsOnEntryTwo | rocm_bandwidth_test.cpp:79-83 | a matrix entry of 2 grants both directions whatever the device types |
| Timing.DeviceSpan | rocm_bandwidth_test.cpp:183-201 | unidirectional: end - start reduced modulo 2^64, equal to the span when the stamps are in order; bidirectional: the length of the smallest interval covering both copies |
| Timing.BidirCoversEachDirection | rocm_bandwidth_test.cpp:195-200 | the bidirectional span is at least each direction's span and at least the unidirectional result |
| Timing.BidirIsUnionOfIntervals | rocm_bandwidth_test.cpp:198-200 | for overlapping copies the bidirectional span is at most the sum of the two spans; it does not depend on which copy is called forward |
| Timing.Total | rocm_bandwidth_test.cpp:310-411 | the accumulated GPU time of spans that are not negative is not negative |
| Timing.TotalSnoc | rocm_bandwidth_test.cpp:411 | accumulating one more span adds it to the total |
| Bytes.Fill | rocm_bandwidth_test.cpp:123-124 | memset yields n bytes, each the given value |
| Bytes.MemCmp | rocm_bandwidth_test.cpp:399 | zero exactly when the first n bytes agree; otherwise the difference of the first differing pair, between -255 and 255 |
| Bytes.MemCmpSign | rocm_bandwidth_test.cpp:399-400 | the sign of memcmp orders the buffers at their first difference |
| Hsa.Runtime.Delivered | rocm_bandwidth_test.cpp:342-344 | a copy delivers as many bytes as its source holds, and exactly the source bytes when copies are faithful |
| Hsa.Runtime.PoolAllocate | rocm_bandwidth_test.cpp:108 | the status comes from the platform; on success a fresh handle above every live one maps to a buffer of the requested size and is logged; on failure nothing is allocated |
| Hsa.Runtime.PoolFree | rocm_bandwidth_test.cpp:164 | only a live buffer that no copy in flight uses can be freed; on success exactly that buffer is gone |
| Hsa.Runtime.SignalCreate | rocm_bandwidth_test.cpp:128 | on success a fresh signal with the initial value; on failure no signal |
| Hsa.Runtime.SignalStore | rocm_bandwidth_test.cpp:329-332 | only an idle live signal is stored to; its value becomes the stored one |
| Hsa.Runtime.SignalDestroy | rocm_bandwidth_test.cpp:168 | only an idle live signal is destroyed; on success it and its timestamps are gone |
| Hsa.Runtime.AllowAccess | rocm_bandwidth_test.cpp:70 | access is granted on a live buffer only; the grant is logged |
| Hsa.Runtime.AsyncCopy | rocm_bandwidth_test.cpp:342-353 | a copy needs live buffers of sufficient size and an idle signal armed to 1; on success it is in flight on that signal with the next copy number |
| Hsa.Runtime.SignalWait | rocm_bandwidth_test.cpp:355-382 | waiting on a copy in flight completes it: the destination's first bytes are what the copy delivered, the rest unchanged; the signal drops by one; the copy's timestamps are kept on the signal |
| Hsa.Runtime.HostFill | rocm_bandwidth_test.cpp:123-124 | memset of a host buffer no copy uses overwrites it with the value and changes nothing else |
| Hsa.Runtime.CopyTimeQuery | rocm_bandwidth_test.cpp:189 | on success the timestamps recorded for the completed copy on that signal |
| Hsa.Runtime.ProfilingEnable | rocm_bandwidth_test.cpp:480 | the call is logged, or logged as failed with the platform's status |
| Engine.Route | rocm_bandwidth_test.cpp:488-497 | the four copy kinds, and only they, go to the copy benchmark; read and write, and only they, go to the I/O benchmark |
| Engine.CpuTimes | rocm_bandwidth_test.cpp:438-444 | one CPU entry per processed size: the timer reading over the iteration count |
| Engine.GpuTimes | rocm_bandwidth_test.cpp:455-458 | one GPU entry per processed size: the accumulated device time over the iteration count when verified, DBL_MAX otherwise |
| Engine.RecordedSeries | rocm_bandwidth_test.cpp:438-460 | after the sweep both CPU series (min and mean) gained the same CPU entries, both GPU series gained GPU entries only when GPU timing is on, and the request is unchanged |
| Engine.GpuTimeUnavailableIffUnverified | rocm_bandwidth_test.cpp:455-456 | a recorded GPU time is DBL_MAX exactly when its size failed validation, and it is not negative when timestamps are in order |
| Engine.BandwidthTest.constructor | rocm_bandwidth_test.cpp:546-580 | the object starts with exit_value_ 0 and the given configuration |
| Engine.BandwidthTest.AcquireAccess | rocm_bandwidth_test.cpp:69-72 | one grant, then ErrorCheck: on success exactly the AllowAccess call is logged; runtime state otherwise untouched |
| Engine.BandwidthTest.AcquirePoolAccesses | rocm_bandwidth_test.cpp:74-97 | stops at the inconsistent-state assertion exactly when the policy says so; otherwise issues exactly the policy's grants in order |
| Engine.BandwidthTest.Allocate | rocm_bandwidth_test.cpp:142-145 | allocation followed by ErrorCheck: a fresh zeroed buffer of the size, or a fatal outcome |
| Engine.BandwidthTest.CreateSignal | rocm_bandwidth_test.cpp:149-150 | signal creation followed by ErrorCheck: a fresh signal armed to 1 |
| Engine.BandwidthTest.AllocateCopyBuffers | rocm_bandwidth_test.cpp:134-154 | source and destination of the given size in the two pools, a signal armed to 1, then the policy's grants, in that call order; inconsistent only when the policy is |
| Engine.BandwidthTest.AllocateHostBuffers | rocm_bandwidth_test.cpp:99-132 | host source granted towards the device source, host destination granted towards the device destination, source 0x23 and destination 0x00, a validation signal armed to 1, in the source's call order |
| Engine.BandwidthTest.AllocateHostPair | rocm_bandwidth_test.cpp:107-124 | the two host buffers with their grants, then the two memsets |
| Engine.BandwidthTest.AllocateHostBuffer | rocm_bandwidth_test.cpp:107-120 | one system-pool buffer followed by the grants between it and its device buffer |
| Engine.BandwidthTest.ReleaseBuffers | rocm_bandwidth_test.cpp:156-181 | frees the forward pair and destroys its signal, then the reverse ones when bidirectional; exactly those handles leave the runtime |
| Engine.BandwidthTest.ReleaseDirection | rocm_bandwidth_test.cpp:162-169 | two frees and a destroy, each followed by ErrorCheck |
| Engine.BandwidthTest.IssueCopy | rocm_bandwidth_test.cpp:342-345 | one asynchronous copy followed by ErrorCheck: the copy is in flight on its signal |
| Engine.BandwidthTest.CopyBuffer | rocm_bandwidth_test.cpp:203-216 | copy then wait: the destination's first size bytes hold what the copy delivered, the signal is at 0, the timestamps are recorded, nothing is left in flight |
| Engine.BandwidthTest.GetGpuCopyTime | rocm_bandwidth_test.cpp:183-201 | queries the forward timestamps, and the reverse ones when bidirectional, and returns their DeviceSpan |
| Engine.BandwidthTest.ArmSignals | rocm_bandwidth_test.cpp:329-332 | the forward signal, and the reverse one when bidirectional, are stored to 1 |
| Engine.BandwidthTest.IssueCopies | rocm_bandwidth_test.cpp:341-353 | the forward copy, then the reverse one with the roles swapped, each on its own armed signal |
| Engine.BandwidthTest.Launch | rocm_bandwidth_test.cpp:329-353 | arm, re-grant when validating, issue: the log is exactly those calls and the copies are in flight |
| Engine.BandwidthTest.AwaitCopies | rocm_bandwidth_test.cpp:355-382 | waits forward then reverse; each destination receives its copy's bytes and each signal its copy's timestamps |
| Engine.BandwidthTest.Land | rocm_bandwidth_test.cpp:355-382 | after the waits nothing is in flight, the transaction's layout is kept, and the forward destination holds what the forward copy delivered |
| Engine.BandwidthTest.TransferOnce | rocm_bandwidth_test.cpp:329-382 | one iteration's copies: launch then wait, with the exact call log and the forward copy's bytes in the destination |
| Engine.BandwidthTest.CopyBack | rocm_bandwidth_test.cpp:384-396 | re-grant between the device destination and the host destination, re-arm the validation signal, copy the first n bytes back to the host |
| Engine.BandwidthTest.ArmedCopy | rocm_bandwidth_test.cpp:393-396 | store 1 to the signal, then copy_buffer on it |
| Bytes.MemCmpPrefix | rocm_bandwidth_test.cpp:399 | memcmp over n bytes looks only at the first n bytes of each buffer |
| Engine.BandwidthTest.SeedCompare | rocm_bandwidth_test.cpp:399 | comparing the host seed with a buffer over n bytes is comparing n bytes of the pattern with the buffer's first n bytes |
| Engine.BandwidthTest.CompareBack | rocm_bandwidth_test.cpp:398-403 | err is memcmp of the host seed against the host destination, equal to memcmp of the pattern against what came back; the size passes exactly when it is 0, otherwise exit_value_ becomes err |
| Engine.BandwidthTest.CheckCopy | rocm_bandwidth_test.cpp:384-405 | err is memcmp of the host seed and what came back; the size passes exactly when it is 0, otherwise exit_value_ becomes err; with faithful copies it passes exactly when the device destination held 0x23 |
| Engine.BandwidthTest.TransferChecked | rocm_bandwidth_test.cpp:329-406 | one iteration's copies and, when validating, the check, with the exact call log; when validating, it passes exactly when memcmp of the pattern against the forward copy's delivery carried back to the host is 0, and a failure leaves that memcmp result in err and exit_value_; it always passes without validation, and passes when copies are faithful |
| Engine.BandwidthTest.TimeCopies | rocm_bandwidth_test.cpp:408-413 | with GPU timing on, the span of this iteration's copies, within 64 bits and not negative when stamps are in order |
| Engine.BandwidthTest.CopyIteration | rocm_bandwidth_test.cpp:320-415 | one iteration: copies, check, and the device span only when the check passed; the exact call log, CopiesPerIteration more copies, the forward source untouched, and the check's verdict as in TransferChecked |
| Engine.BandwidthTest.AccumulateIteration | rocm_bandwidth_test.cpp:320-415 | one loop step: the iteration's copies start at copy number CopyOfIteration(it); the verdict, the log and the copy count as in CopyIteration; the span is added to the accumulator when GPU timing is on; a failed check leaves the accumulator as it was |
| Engine.BandwidthTest.RunIterations | rocm_bandwidth_test.cpp:305-415 | either every iteration passed (verify true, every check's memcmp 0, the log is one iteration's calls per iteration, copies issued for all of them) or the loop stopped at the first failed check (the calls of the passed iterations and of the failed one up to its check, its nonzero memcmp in err and exit_value_); the accumulated time is the sum of the spans collected, one per iteration while GPU timing is on, each the span of that iteration's copies |
| Engine.BandwidthTest.StepIteration | rocm_bandwidth_test.cpp:320-415 | one more iteration after it passed ones: it passes, extending the log, the copy count and the passed checks by one, or it fails its check, leaving its calls up to the check and its nonzero memcmp in err and exit_value_ |
| Engine.BandwidthTest.RunSize | rocm_bandwidth_test.cpp:287-415 | with GetIterationNum iterations, the copies of all iterations are issued; when validating, the size passes exactly when the memcmp of its single check is 0; a failed size leaves a nonzero exit value |
| Engine.BandwidthTest.MeasureSize | rocm_bandwidth_test.cpp:298-460 | one size: copies of all its iterations issued, the forward source untouched, and, when validating, verify true exactly when the check's memcmp is 0; each collected span is the device span of its own iteration's copies (SpansOf); then one CPU entry and, when GPU timing is on, one GPU entry (their total over the iteration count, or DBL_MAX) recorded in the transaction |
| Engine.BandwidthTest.StepSize | rocm_bandwidth_test.cpp:295-460 | one more size keeps the sweep's invariant Swept: copy count, verdicts, each size's spans those of its own copies (SizeSpans), recorded results, layout and exit value |
| Engine.BandwidthTest.SweepSizes | rocm_bandwidth_test.cpp:295-462 | processes exactly SweepLength sizes in order (Swept): size k's copies start at SizeStart(k) and its spans are the device spans of those copies; when validating, size k passes exactly when its memcmp is 0; every size recorded; the layout kept; the exit value untouched unless a size failed |
| Engine.BandwidthTest.ProvisionCopy | rocm_bandwidth_test.cpp:253-270 | the forward buffers and signal, then the reverse ones with the pools swapped when bidirectional, at the largest size |
| Engine.BandwidthTest.ProvisionHost | rocm_bandwidth_test.cpp:272-285 | the host pair and validation signal, then the seed copy of 0x23 into the forward source |
| Engine.BandwidthTest.Seed | rocm_bandwidth_test.cpp:281-284 | the forward source holds what the seed copy delivered from the 0x23 host buffer, on the signal as created |
| Engine.BandwidthTest.ProvisionedLayout | rocm_bandwidth_test.cpp:253-285 | provisioning adds exactly the transaction's fresh buffers and signals, every buffer of the largest size, the host seed holding 0x23 |
| Engine.BandwidthTest.Provision | rocm_bandwidth_test.cpp:253-285 | holds exactly HandleCount fresh handles laid out for the sweep, with the exact call log |
| Engine.BandwidthTest.ReleaseCopyBuffers | rocm_bandwidth_test.cpp:465-467 | the copy buffers and signals go; only the validation pair and signal remain of the transaction |
| Engine.BandwidthTest.Teardown | rocm_bandwidth_test.cpp:465-473 | releases the copy buffers, then the validation pair and signal; the runtime holds exactly what it held before provisioning |
| Engine.BandwidthTest.RunCopyBenchmark | rocm_bandwidth_test.cpp:218-474 | balance of buffers and signals; every size of the list processed and recorded; the copy count after it is the seed copy (when validating) plus every iteration of every size; each size's spans are those of its own copies; all sizes verified when copies are faithful or validation is off; exit value changed exactly when a size failed validation; when validating, size k passes exactly when memcmp of the pattern against what its copies delivered from the seeded source is 0 |
| Engine.BandwidthTest.RunTransaction | rocm_bandwidth_test.cpp:486-498 | a copy transaction holds exactly the results its sweep recorded (Dispatched: Recorded, the memcmp verdicts, all passing without validation or with faithful copies, spans of its own copies, its copy count); any other transaction is untouched and issues no copy; exit value changed exactly when a size failed validation |
| Engine.BandwidthTest.StepTransaction | rocm_bandwidth_test.cpp:486-498 | one more transaction keeps Run's invariant Dispatching: it is Dispatched from the current copy number, later transactions untouched, and the exit value changed exactly when a size failed |
| Engine.BandwidthTest.Run | rocm_bandwidth_test.cpp:476-508 | profiling enabled first and disabled last when GPU timing is on; transaction k is Dispatched from copy number starts[k] to starts[k + 1], the numbers chaining from the copy count before Run to the one after; buffers and signals balanced; exit value changed exactly when a size of some transaction failed validation |

## Left out

- The HSA runtime itself (discovery, pools, agents, signals, DMA engines) is
  an abstract machine. What a call returns, what a copy delivers and what
  timestamps it records are oracles fixed at construction.
- New buffers are taken to hold zeros, where HSA leaves their contents
  unspecified. Only the host source and the host destination are written
  before use (rocm_bandwidth_test.cpp:123-124). The forward device source is
  seeded only when validating (rocm_bandwidth_test.cpp:281-284). The reverse
  source is never written, so a bidirectional copy moves whatever it holds
  (rocm_bandwidth_test.cpp:349). No verdict depends on these contents, since
  bytes are compared only when validating, and then against the seeded
  forward source.
- Hsa.Runtime.AllowAccess: access rights are logged but not kept as runtime
  state, and Hsa.Runtime.AsyncCopy does not require a grant. The model
  therefore does not show that a copy happens only between agents that were
  granted access. It only shows that the benchmark makes the grant calls the
  policy calls for, in order.
- `ErrorCheck` comes from `common.hpp`, which is not part of this model. It is
  taken to stop the benchmark at the first nonzero status, shown as the
  `Fatal` outcome.
- Engine.BandwidthTest.AcquirePoolAccesses: `assert(false && "Inconsistent state")`
  is modelled as the `InconsistentState` outcome, as in a build with
  assertions enabled. A build with `NDEBUG` returns without any grant, and the
  model does not capture that.
- The choice between a spinning wait and a blocking wait
  (`ROCR_BW_RUN_BLOCKING`) is not modelled. Both are modelled as one wait that
  returns after the copy completes. The wait is the model's only
  synchronisation point: the two directions' copies complete atomically when
  they are waited on.
- Sweep.IterationNum: the product `num_iteration_ * 1.2` is computed exactly
  (as 6n/5), not in double precision followed by a cast to `uint32_t`. The two
  can differ for very large counts.
- Engine.BandwidthTest.GetGpuCopyTime: the bidirectional span is computed
  exactly, not in double precision. Stamps above 2^53 therefore do not lose
  precision as they do in the source.
- Times are real numbers, not doubles. The CPU timer (`PerfTimer`) is not part
  of this model. Its reading for each size is a parameter (`elapsed`).
- Sizes, indices and counts are unbounded integers. `Sweep.SizeList` proves
  that every size fits the `uint32_t` the source uses.
- `size_list_` is a parameter. `SetUp` fills it with `SIZE_LIST` or with
  user-given sizes, and `SetUp`, `ParseArguments`, `ValidateArguments` and
  `BuildTransList` are not part of this model.
- Agents are identified by their index in `agent_list_` rather than by their
  `hsa_agent_t`.
- `RunIOBenchmark` and `ComputeCopyTime` are not part of this model. In `Run`,
  a read or write transaction is left as it is.
- Also not part of this model: `Close`, the constructor's environment-variable
  reads, console output and the floating-point bandwidth figures printed per
  size.
- Bytes.MemCmp: C guarantees only the sign of `memcmp`. The model returns the
  difference of the first differing bytes, which is the common
  implementation. `exit_value_` takes that value.
