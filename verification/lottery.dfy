/** The weighted lottery of `Network::mineBlock`: pools are visited in list
    order while a running probe accumulates their hash-rate shares, and the
    first pool whose probe reaches the pivot wins. Shares and pivots are
    doubles in C++ and are modelled as exact reals. */
module Lottery {

  datatype Option<T> = None | Some(value: T)

  /** Sum of the first `k` shares, added left to right. */
  function PrefixSum(shares: seq<real>, k: nat): real
    requires k <= |shares|
  {
    if k == 0 then 0.0 else PrefixSum(shares, k - 1) + shares[k - 1]
  }

  /** The value of the probe right after pool `i` has been added. */
  function ProbeAfter(shares: seq<real>, i: nat): real
    requires i < |shares|
  {
    PrefixSum(shares, i + 1)
  }

  function TotalShare(shares: seq<real>): real
  {
    PrefixSum(shares, |shares|)
  }

  predicate NonNegative(shares: seq<real>)
  {
    forall i :: 0 <= i < |shares| ==> 0.0 <= shares[i]
  }

  /** Pool `i` is the first whose probe reaches the pivot; reaching includes equality. */
  ghost predicate IsFirstReaching(shares: seq<real>, pivot: real, i: nat)
  {
    && i < |shares|
    && ProbeAfter(shares, i) >= pivot
    && forall j :: 0 <= j < i ==> ProbeAfter(shares, j) < pivot
  }

  /** No probe reaches the pivot: the block goes to the residual network share. */
  ghost predicate NoneReaching(shares: seq<real>, pivot: real)
  {
    forall j :: 0 <= j < |shares| ==> ProbeAfter(shares, j) < pivot
  }

  /** The selection loop, resumed at pool `i` with the probe of the pools before it. */
  function WinnerFrom(shares: seq<real>, pivot: real, i: nat, probe: real): (w: Option<nat>)
    requires i <= |shares|
    requires probe == PrefixSum(shares, i)
    requires forall j :: 0 <= j < i ==> ProbeAfter(shares, j) < pivot
    ensures w.Some? ==> IsFirstReaching(shares, pivot, w.value)
    ensures w.None? ==> NoneReaching(shares, pivot)
    decreases |shares| - i
  {
    if i == |shares| then None
    else
      var probe' := probe + shares[i];
      if probe' >= pivot then Some(i)
      else WinnerFrom(shares, pivot, i + 1, probe')
  }

  /** The winning pool index for one pivot, or `None` for the residual share. */
  function Winner(shares: seq<real>, pivot: real): (w: Option<nat>)
    ensures w.Some? ==> IsFirstReaching(shares, pivot, w.value)
    ensures w.None? <==> NoneReaching(shares, pivot)
  {
    WinnerFrom(shares, pivot, 0, 0.0)
  }

  /** The first reaching pool is unique, so `Winner` names exactly it. */
  lemma {:induction false} WinnerIsTheFirstReaching(shares: seq<real>, pivot: real, i: nat)
    ensures Winner(shares, pivot) == Some(i) <==> IsFirstReaching(shares, pivot, i)
  {
    var w := Winner(shares, pivot);
    if IsFirstReaching(shares, pivot, i) {
      assert !NoneReaching(shares, pivot);
      // Both probes reach the pivot, so neither index can precede the other.
      assert ProbeAfter(shares, w.value) >= pivot;
      assert ProbeAfter(shares, i) >= pivot;
    }
  }

  /** If there is at least one pool and the shares together reach the pivot,
      some pool wins. */
  lemma {:induction false} CoveredPivotHasWinner(shares: seq<real>, pivot: real)
    requires |shares| > 0
    requires TotalShare(shares) >= pivot
    ensures Winner(shares, pivot).Some?
  {
    assert ProbeAfter(shares, |shares| - 1) >= pivot;
  }

  /** Shares summing to at least 1 always produce a winner for a pivot below
      1, as every pivot drawn from [0, 1) is. */
  lemma {:induction false} UnitPivotHasWinner(shares: seq<real>, pivot: real)
    requires TotalShare(shares) >= 1.0
    requires pivot < 1.0
    ensures Winner(shares, pivot).Some?
  {
    assert |shares| > 0;
    CoveredPivotHasWinner(shares, pivot);
  }

  /** With non-negative shares the probe never decreases. */
  lemma {:induction false} PrefixSumMonotone(shares: seq<real>, j: nat, k: nat)
    requires NonNegative(shares)
    requires j <= k <= |shares|
    ensures PrefixSum(shares, j) <= PrefixSum(shares, k)
    decreases k - j
  {
    if j < k {
      PrefixSumMonotone(shares, j, k - 1);
      assert 0.0 <= shares[k - 1];
    }
  }

  /** With non-negative shares the residual share wins exactly when there are
      no pools or the total share stays below the pivot. */
  lemma {:induction false} ResidualWinsIffTotalBelowPivot(shares: seq<real>, pivot: real)
    requires NonNegative(shares)
    ensures Winner(shares, pivot).None? <==> |shares| == 0 || TotalShare(shares) < pivot
  {
    if |shares| == 0 {
    } else if TotalShare(shares) < pivot {
      forall j | 0 <= j < |shares|
        ensures ProbeAfter(shares, j) < pivot
      {
        PrefixSumMonotone(shares, j + 1, |shares|);
      }
    } else {
      CoveredPivotHasWinner(shares, pivot);
    }
  }
}
