/**
 * The benchmark's two fixed rules for how much work is done per transaction:
 * the size sweep (SIZE_LIST) and the iteration count (GetIterationNum),
 * together with the rule that decides how many sweep entries the copy loop
 * actually processes.
 */
module Sweep {

  /** 2 raised to the power k. */
  function Pow2(k: nat): nat
  {
    if k == 0 then 1 else 2 * Pow2(k - 1)
  }

  /** Largest value a uint32_t can hold, plus one. */
  const UINT32_LIMIT: nat := 0x1_0000_0000

  /**
   * SIZE_LIST: the buffer sizes in bytes, from 1 KiB to 512 MiB; every entry
   * fits the uint32_t the source stores it in.
   */
  function SizeList(): (s: seq<nat>)
    ensures |s| == 20
    ensures s[0] == 1024
    ensures forall i :: 0 < i < |s| ==> s[i] == 2 * s[i - 1]
    ensures forall i :: 0 <= i < |s| ==> s[i] < UINT32_LIMIT
  {
    [ 1 * 1024,
      2 * 1024, 4 * 1024, 8 * 1024,
      16 * 1024, 32 * 1024, 64 * 1024,
      128 * 1024, 256 * 1024, 512 * 1024,
      1 * 1024 * 1024, 2 * 1024 * 1024,
      4 * 1024 * 1024, 8 * 1024 * 1024,
      16 * 1024 * 1024, 32 * 1024 * 1024,
      64 * 1024 * 1024, 128 * 1024 * 1024,
      256 * 1024 * 1024, 512 * 1024 * 1024 ]
  }

  /** Entry i of the sweep is 1 KiB times 2^i. */
  lemma {:induction false} SizeListClosedForm(i: nat)
    requires i < |SizeList()|
    ensures SizeList()[i] == 1024 * Pow2(i)
  {
    if i > 0 {
      SizeListClosedForm(i - 1);
    }
  }

  /** Every entry is twice the previous one. */
  ghost predicate Doubling(s: seq<nat>)
  {
    forall i :: 0 < i < |s| ==> s[i] == 2 * s[i - 1]
  }

  ghost predicate StrictlyAscending(s: seq<nat>)
  {
    forall i, j :: 0 <= i < j < |s| ==> s[i] < s[j]
  }

  /** A doubling sequence that starts above zero is strictly ascending. */
  lemma {:induction false} DoublingIsAscending(s: seq<nat>)
    requires |s| > 0 && s[0] > 0
    requires Doubling(s)
    ensures StrictlyAscending(s)
  {
    forall i, j | 0 <= i < j < |s|
      ensures s[i] < s[j]
    {
      DoublingStep(s, i, j);
    }
  }

  lemma {:induction false} DoublingStep(s: seq<nat>, i: nat, j: nat)
    requires |s| > 0 && s[0] > 0
    requires Doubling(s)
    requires i < j < |s|
    ensures 0 < s[i] < s[j]
  {
    if j == i + 1 {
      PositiveEntries(s, i);
    } else {
      DoublingStep(s, i, j - 1);
    }
  }

  lemma {:induction false} PositiveEntries(s: seq<nat>, i: nat)
    requires |s| > 0 && s[0] > 0
    requires Doubling(s)
    requires i < |s|
    ensures s[i] > 0
  {
    if i > 0 {
      PositiveEntries(s, i - 1);
    }
  }

  /** The size sweep is strictly ascending, and so its last entry is its largest. */
  lemma SizeListAscending()
    ensures StrictlyAscending(SizeList())
    ensures forall i :: 0 <= i < |SizeList()| ==> SizeList()[i] <= SizeList()[|SizeList()| - 1]
  {
    DoublingIsAscending(SizeList());
  }

  /**
   * How many leading sweep entries the copy loop processes: it walks the list
   * in order and stops at the first entry larger than the allocated buffer
   * size max_size ("Illegal DMA buffer size").
   */
  function SweepLength(sizes: seq<nat>, maxSize: nat): (n: nat)
    ensures n <= |sizes|
    ensures forall i :: 0 <= i < n ==> sizes[i] <= maxSize
    ensures n < |sizes| ==> sizes[n] > maxSize
  {
    if sizes == [] || sizes[0] > maxSize then 0
    else 1 + SweepLength(sizes[1..], maxSize)
  }

  /**
   * With the buffers allocated at the last entry of SIZE_LIST, every entry is
   * processed: the "Illegal DMA buffer size" exit is never taken.
   */
  lemma SizeListFullyProcessed()
    ensures SweepLength(SizeList(), SizeList()[|SizeList()| - 1]) == |SizeList()| == 20
  {
    SizeListAscending();
  }

  /**
   * GetIterationNum: one iteration when validating; otherwise the configured
   * count inflated by 1.2, truncated, plus one.
   */
  function IterationNum(validate: bool, numIteration: nat): (r: nat)
    ensures r >= 1
    ensures validate ==> r == 1
    ensures !validate ==> 5 * (r - 1) <= 6 * numIteration < 5 * r
  {
    if validate then 1 else numIteration * 6 / 5 + 1
  }

  /** The worked example: ten configured iterations run thirteen times. */
  lemma IterationNumOfTen()
    ensures IterationNum(false, 10) == 13
    ensures IterationNum(true, 10) == 1
  {
  }
}
