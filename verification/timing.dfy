/**
 * Device-time arithmetic of GetGpuCopyTime and the reduction of per-size
 * timings into the reported result values.
 */
module Timing {
  import opened Hsa

  const UINT64_LIMIT: int := 0x1_0000_0000_0000_0000

  /** numeric_limits<double>::max(), the value reported for a size whose validation failed. */
  const DOUBLE_MAX: real := 179769313486231570814527423731704356798070567525844996598917476803157260780028538760589558632766878171540458953514382464234321326889464182768467546703537516986049910576551282076245490090389328944075868508455133942304583236903222948165808559332123348274797826204144723168738177180919299881250404026184124858368.0

  /** The length of one copy's device interval. */
  function Span(t: CopyTime): int
  {
    t.end - t.start
  }

  function Min(a: int, b: int): int { if a <= b then a else b }
  function Max(a: int, b: int): int { if a >= b then a else b }

  /**
   * GetGpuCopyTime.  Unidirectional: end - start of the forward copy in
   * uint64_t arithmetic (wrapping if the stamps are out of order).
   * Bidirectional: the length of the smallest interval that covers both
   * copies, computed in double precision (no wrap).
   */
  function DeviceSpan(bidir: bool, fwd: CopyTime, rev: CopyTime): (r: int)
    ensures !bidir ==> 0 <= r < UINT64_LIMIT && (r - Span(fwd)) % UINT64_LIMIT == 0
    ensures !bidir && fwd.start <= fwd.end ==> r == Span(fwd)
    ensures bidir ==> r + Min(fwd.start, rev.start) == Max(fwd.end, rev.end)
  {
    if !bidir then (fwd.end - fwd.start) % UINT64_LIMIT
    else Max(fwd.end, rev.end) - Min(fwd.start, rev.start)
  }

  /** The bidirectional span covers each direction's own span. */
  lemma BidirCoversEachDirection(fwd: CopyTime, rev: CopyTime)
    requires fwd.start <= fwd.end && rev.start <= rev.end
    ensures DeviceSpan(true, fwd, rev) >= Span(fwd)
    ensures DeviceSpan(true, fwd, rev) >= Span(rev)
    ensures DeviceSpan(true, fwd, rev) >= DeviceSpan(false, fwd, rev)
  {
  }

  /**
   * Union, not sum: when the two copies overlap in time, the bidirectional
   * span is at most the sum of the two spans; and it does not depend on
   * which copy is called forward.
   */
  lemma BidirIsUnionOfIntervals(fwd: CopyTime, rev: CopyTime)
    requires fwd.start <= fwd.end && rev.start <= rev.end
    ensures fwd.start <= rev.end && rev.start <= fwd.end ==>
      DeviceSpan(true, fwd, rev) <= Span(fwd) + Span(rev)
    ensures DeviceSpan(true, fwd, rev) == DeviceSpan(true, rev, fwd)
  {
  }

  /** Sum of the per-iteration device spans of one size. */
  function Total(spans: seq<int>): (r: real)
    ensures (forall i :: 0 <= i < |spans| ==> spans[i] >= 0) ==> r >= 0.0
  {
    if spans == [] then 0.0 else Total(spans[..|spans| - 1]) + spans[|spans| - 1] as real
  }

  /** Accumulating one more span adds it to the total. */
  lemma TotalSnoc(spans: seq<int>, x: int)
    ensures Total(spans + [x]) == Total(spans) + x as real
  {
    assert (spans + [x])[..|spans|] == spans;
  }
}
