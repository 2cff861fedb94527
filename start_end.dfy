/** The positional trim gate `start_end` (fc/gate.py:53-77): discard the first
    num_start and the last num_end events, by slice assignment on a mask that
    starts all true. */
module StartEndGate {
  import opened GateCommon
  import opened Points

  /** Python's normalisation of a slice bound k (step 1) on a sequence of
      length n: a negative bound counts from the end, and both ends clip. */
  function SliceBound(k: int, n: nat): (b: nat)
    ensures b <= n
    ensures 0 <= k <= n ==> b == k
    ensures -(n as int) <= k < 0 ==> b == n + k
  {
    if k < 0 then (if k + n < 0 then 0 else k + n)
    else if k > n then n
    else k
  }

  /** The mask start_end builds, as written: np.ones(n), then mask[:numStart]
      and mask[-numEnd:] set to False. An entry stays true exactly when it is
      at or after the first slice's end and before the second slice's start. */
  function SliceMask(n: nat, numStart: int, numEnd: int): (mask: seq<bool>)
    ensures |mask| == n
    ensures 0 <= numStart && 0 < numEnd && numStart + numEnd <= n ==>
      forall i :: 0 <= i < n ==> (mask[i] <==> numStart <= i < n - numEnd)
    ensures numEnd == 0 ==> forall i :: 0 <= i < n ==> !mask[i]
  {
    var lo, hi := SliceBound(numStart, n), SliceBound(-numEnd, n);
    assert 0 <= numStart && 0 < numEnd && numStart + numEnd <= n ==> lo == numStart && hi == n - numEnd;
    assert numEnd == 0 ==> hi == 0;
    seq(n, i => lo <= i < hi)
  }

  /** start_end's mask computation: the ValueError check, then the two slice
      assignments on a freshly allocated all-true array. */
  method StartEndMask(n: nat, numStart: int, numEnd: int) returns (r: Result<seq<bool>>)
    ensures r.Err? <==> n < numStart + numEnd
    ensures r.Err? ==> r.error == DiscardExceedsEvents
    ensures r.Ok? ==> r.value == SliceMask(n, numStart, numEnd)
    ensures r.Ok? && 0 <= numStart && 0 < numEnd ==>
      forall i :: 0 <= i < n ==> (r.value[i] <==> numStart <= i < n - numEnd)
    ensures r.Ok? && numEnd == 0 ==> forall i :: 0 <= i < n ==> !r.value[i]
  {
    if n < numStart + numEnd {
      return Err(DiscardExceedsEvents);
    }
    var mask := new bool[n](_ => true);
    // mask[:num_start] = False
    var stop := SliceBound(numStart, n);
    for i := 0 to stop
      invariant forall k :: 0 <= k < n ==> (mask[k] <==> i <= k)
    {
      mask[i] := false;
    }
    // mask[-num_end:] = False
    var start := SliceBound(-numEnd, n);
    for i := start to n
      invariant forall k :: 0 <= k < n ==> (mask[k] <==> stop <= k && !(start <= k < i))
    {
      mask[i] := false;
    }
    r := Ok(mask[..]);
  }

  /** start_end with full output: the mask and data[mask]. */
  method StartEnd<T>(data: seq<T>, numStart: int, numEnd: int) returns (r: Result<GateOutput<T>>)
    ensures r.Err? <==> |data| < numStart + numEnd
    ensures r.Err? ==> r.error == DiscardExceedsEvents
    ensures r.Ok? ==> r.value.mask == SliceMask(|data|, numStart, numEnd)
    ensures r.Ok? ==> r.value.gated == Select(data, r.value.mask)
    ensures r.Ok? && 0 <= numStart && 0 < numEnd ==> r.value.gated == data[numStart..|data| - numEnd]
    ensures r.Ok? && numEnd == 0 ==> r.value.gated == []
  {
    var m := StartEndMask(|data|, numStart, numEnd);
    if m.Err? {
      return Err(m.error);
    }
    if 0 <= numStart && 0 < numEnd {
      StartEndKeepsMiddle(data, numStart, numEnd);
    }
    if numEnd == 0 {
      ZeroEndDiscardsAll(data, numStart);
    }
    r := Ok(GateOutput(Select(data, m.value), m.value));
  }

  /** With non-negative counts and num_end > 0 the gate keeps exactly the
      block data[num_start .. N - num_end], in order. */
  lemma {:induction false} StartEndKeepsMiddle<T>(data: seq<T>, numStart: nat, numEnd: nat)
    requires 0 < numEnd && numStart + numEnd <= |data|
    ensures Select(data, SliceMask(|data|, numStart, numEnd)) == data[numStart..|data| - numEnd]
  {
    var n := |data|;
    assert SliceBound(numStart, n) == numStart && SliceBound(-(numEnd as int), n) == n - numEnd;
    SelectBlock(data, SliceMask(n, numStart, numEnd), numStart, n - numEnd);
  }

  /** As written, num_end == 0 makes the second assignment mask[-0:], which
      is mask[0:]: every event is gated out, whatever num_start is. */
  lemma {:induction false} ZeroEndDiscardsAll<T>(data: seq<T>, numStart: int)
    requires numStart <= |data|
    ensures Select(data, SliceMask(|data|, numStart, 0)) == []
  {
    var mask := SliceMask(|data|, numStart, 0);
    assert SliceBound(-0, |data|) == 0;
    assert forall i :: 0 <= i < |mask| ==> !mask[i];
    SelectBlock(data, mask, 0, 0);
  }

  /** A concrete input on which the code as written departs from its
      documented purpose: five events, nothing to discard, and none kept. */
  lemma ZeroEndCounterexample()
    ensures SliceMask(5, 0, 0) == [false, false, false, false, false]
    ensures IntendedMask(5, 0, 0) == [true, true, true, true, true]
  {
  }

  /** The evidently intended mask: keep events num_start .. N - num_end - 1,
      so that num_end == 0 discards nothing at the end. */
  function IntendedMask(n: nat, numStart: nat, numEnd: nat): (mask: seq<bool>)
    ensures |mask| == n
  {
    seq(n, i => numStart <= i < n - numEnd)
  }

  /** The intended gate keeps exactly data[num_start .. N - num_end] for every
      admissible pair of counts, num_end == 0 included. */
  lemma {:induction false} IntendedKeepsMiddle<T>(data: seq<T>, numStart: nat, numEnd: nat)
    requires numStart + numEnd <= |data|
    ensures Select(data, IntendedMask(|data|, numStart, numEnd)) == data[numStart..|data| - numEnd]
  {
    var mask := IntendedMask(|data|, numStart, numEnd);
    assert forall i :: 0 <= i < |mask| ==> (mask[i] <==> numStart <= i < |data| - numEnd);
    SelectBlock(data, mask, numStart, |data| - numEnd);
  }

  /** start_end as evidently intended: the same ValueError check, then keep
      exactly data[num_start .. N - num_end]. */
  method StartEndCorrected<T>(data: seq<T>, numStart: nat, numEnd: nat) returns (r: Result<GateOutput<T>>)
    ensures r.Err? <==> |data| < numStart + numEnd
    ensures r.Err? ==> r.error == DiscardExceedsEvents
    ensures r.Ok? ==> r.value.mask == IntendedMask(|data|, numStart, numEnd)
    ensures r.Ok? ==> r.value.gated == data[numStart..|data| - numEnd]
  {
    if |data| < numStart + numEnd {
      return Err(DiscardExceedsEvents);
    }
    var mask := IntendedMask(|data|, numStart, numEnd);
    IntendedKeepsMiddle(data, numStart, numEnd);
    r := Ok(GateOutput(Select(data, mask), mask));
  }

  /** The intended mask and the as-written one agree whenever num_end > 0. */
  lemma {:induction false} IntendedAgreesWhenEndPositive(n: nat, numStart: nat, numEnd: nat)
    requires 0 < numEnd && numStart + numEnd <= n
    ensures SliceMask(n, numStart, numEnd) == IntendedMask(n, numStart, numEnd)
  {
    assert SliceBound(numStart, n) == numStart && SliceBound(-(numEnd as int), n) == n - numEnd;
  }
}
