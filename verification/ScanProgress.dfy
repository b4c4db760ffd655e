/** Throttled progress reporting, and the bound on how often the callback runs. */
module ScanProgress {

  function StepOf(size: nat): nat {
    if size / 100 > 1 then size / 100 else 1
  }

  function FineStep(step: nat): nat {
    if step / 16 > 1 then step / 16 else 1
  }

  /** The two steps in the linear terms the counting needs. */
  lemma Steps(size: nat)
    ensures size < 100 * StepOf(size) + 100 && (StepOf(size) == 1 ==> size <= 199)
    ensures StepOf(size) < 32 * FineStep(StepOf(size)) && (StepOf(size) == 1 ==> FineStep(1) == 1)
    ensures StepOf(size) > 0 && FineStep(StepOf(size)) > 0
  {}

  /** The distance the reporter asks for before it reports offset. */
  function Distance(offset: int, size: nat, step: nat, fine: nat): nat {
    if offset >= size - step then fine else step
  }

  predicate Due(last: int, offset: nat, size: nat, step: nat, fine: nat) {
    offset != last && !(offset - last < Distance(offset, size, step, fine) && offset < size)
  }

  function Previous(offsets: seq<nat>, i: nat): nat
    requires i <= |offsets|
  {
    if i == 0 then 0 else offsets[i - 1]
  }

  /** The throttle on report i, given the one before. */
  predicate Throttled(offsets: seq<nat>, i: nat, size: nat, step: nat, fine: nat)
    requires i < |offsets|
  {
    && Previous(offsets, i) < offsets[i] <= size
    && (offsets[i] < size ==> Previous(offsets, i) + Distance(offsets[i], size, step, fine) <= offsets[i])
  }

  /** The throttle on a whole sequence of reported offsets. */
  ghost predicate Spaced(offsets: seq<nat>, size: nat, step: nat, fine: nat) {
    forall i {:trigger Throttled(offsets, i, size, step, fine)} ::
      0 <= i < |offsets| ==> Throttled(offsets, i, size, step, fine)
  }

  lemma SpacedNone(size: nat, step: nat, fine: nat)
    ensures Spaced([], size, step, fine)
  {}

  lemma SpacedAppend(offsets: seq<nat>, offset: nat, size: nat, step: nat, fine: nat)
    requires Spaced(offsets, size, step, fine)
    requires Throttled(offsets + [offset], |offsets|, size, step, fine)
    ensures Spaced(offsets + [offset], size, step, fine)
  {
    var all := offsets + [offset];
    forall i | 0 <= i < |all| ensures Throttled(all, i, size, step, fine) {
      if i < |offsets| { assert Throttled(offsets, i, size, step, fine); }
    }
  }

  /** What has been reported once an offset more has been offered. */
  function ReportedAfter(reported: seq<nat>, offset: nat, size: nat): seq<nat> {
    if Due(Previous(reported, |reported|), offset, size, StepOf(size), FineStep(StepOf(size)))
    then reported + [offset] else reported
  }

  /** Of the offsets a walk offers, those that the throttle lets through. */
  function Filtered(offers: seq<nat>, size: nat): seq<nat>
    decreases |offers|
  {
    if offers == [] then [] else ReportedAfter(Filtered(offers[..|offers| - 1], size), offers[|offers| - 1], size)
  }

  lemma FilteredAppend(offers: seq<nat>, offset: nat, size: nat)
    ensures Filtered(offers + [offset], size) == ReportedAfter(Filtered(offers, size), offset, size)
  {
    assert (offers + [offset])[..|offers|] == offers;
  }

  /** What is let through is strictly increasing and spaced, however often bytes are walked again. */
  lemma {:induction false} FilteredIsSpaced(offers: seq<nat>, size: nat)
    requires forall offset <- offers :: offset <= size
    ensures Spaced(Filtered(offers, size), size, StepOf(size), FineStep(StepOf(size)))
    ensures forall offset <- Filtered(offers, size) :: offset in offers
    decreases |offers|
  {
    var step := StepOf(size);
    if offers == [] {
      SpacedNone(size, step, FineStep(step));
    } else {
      var n := |offers| - 1;
      assert offers[n] in offers && forall offset <- offers[..n] :: offset in offers;
      FilteredIsSpaced(offers[..n], size);
      var before := Filtered(offers[..n], size);
      if before != [] { assert before[|before| - 1] in offers[..n]; }
      if Due(Previous(before, |before|), offers[n], size, step, FineStep(step)) {
        DueIsThrottled(before, offers[n], size);
        SpacedAppend(before, offers[n], size, step, FineStep(step));
      }
    }
  }

  lemma DueIsThrottled(before: seq<nat>, offset: nat, size: nat)
    requires offset <= size && Previous(before, |before|) <= size
    requires Due(Previous(before, |before|), offset, size, StepOf(size), FineStep(StepOf(size)))
    ensures Throttled(before + [offset], |before|, size, StepOf(size), FineStep(StepOf(size)))
  {}

  class Reporter {
    const size: nat
    const hasCallback: bool
    var lastReported: nat
    /** The offsets the callback has been given, in order; its second argument is always size. */
    var reported: seq<nat>
    /** Every offset that Report has been called with, in order. */
    ghost var offered: seq<nat>

    ghost predicate Valid()
      reads this
    {
      && size > 0
      && (forall offset <- offered :: offset <= size)
      && reported == (if hasCallback then Filtered(offered, size) else [])
      && lastReported == Previous(reported, |reported|)
    }

    constructor (size: nat, hasCallback: bool)
      requires size > 0
      ensures Valid() && this.size == size && this.hasCallback == hasCallback && offered == []
    {
      this.size := size;
      this.hasCallback := hasCallback;
      lastReported := 0;
      reported := [];
      offered := [];
    }

    method Report(offset: nat)
      requires Valid() && offset <= size
      modifies this
      ensures Valid() && offered == old(offered) + [offset]
      ensures reported == if hasCallback && Due(old(lastReported), offset, size, StepOf(size), FineStep(StepOf(size)))
                          then old(reported) + [offset]
                          else old(reported)
      ensures hasCallback && offset == size ==> lastReported == size
    {
      FilteredAppend(offered, offset, size);
      offered := offered + [offset];
      if !hasCallback {
        return;
      }
      if offset == lastReported {
        return;
      }
      var step := StepOf(size);
      var reportingStep := if offset >= size - step then FineStep(step) else step;
      if offset - lastReported < reportingStep && offset < size {
        return;
      }
      lastReported := offset;
      reported := reported + [offset];
    }
  }

  // ----- at most 199 reports -----

  /** k steps, as a sum: the counting below needs no other multiplication. */
  function Times(k: nat, step: nat): nat {
    if k == 0 then 0 else Times(k - 1, step) + step
  }

  lemma {:induction false} TimesAtLeast(k: nat, m: nat, step: nat)
    requires m <= k
    ensures Times(k, step) >= Times(m, step)
    decreases k
  {
    if m < k { TimesAtLeast(k - 1, m, step); }
  }

  lemma {:induction false} TimesIsProduct(k: nat, step: nat)
    ensures Times(k, step) == k * step
  {
    if k > 0 {
      TimesIsProduct(k - 1, step);
      assert k * step == (k - 1) * step + step;
    }
  }

  /** The first k reports lie before the closing stretch and are a full step apart. */
  lemma {:induction false} CoarsePart(offsets: seq<nat>, size: nat, step: nat, fine: nat) returns (k: nat)
    requires Spaced(offsets, size, step, fine)
    ensures k <= |offsets| && Times(k, step) <= Previous(offsets, k)
    ensures k > 0 ==> Previous(offsets, k) < size - step
    ensures forall i :: k <= i < |offsets| ==> offsets[i] >= size - step
    decreases |offsets|
  {
    if offsets == [] {
      k := 0;
    } else {
      var n := |offsets| - 1;
      var rest := offsets[..n];
      assert Spaced(rest, size, step, fine) by {
        forall i | 0 <= i < n ensures Throttled(rest, i, size, step, fine) {
          assert Throttled(offsets, i, size, step, fine);
        }
      }
      k := CoarsePart(rest, size, step, fine);
      assert Previous(rest, k) == Previous(offsets, k);
      assert Throttled(offsets, n, size, step, fine);
      if offsets[n] < size - step {
        assert Previous(rest, n) == Previous(offsets, n);
        k := n + 1;
      }
    }
  }

  /** From report k on, in the closing stretch, reports are a fine step apart. */
  lemma {:induction false} FinePart(offsets: seq<nat>, size: nat, step: nat, fine: nat, k: nat, i: nat)
    requires Spaced(offsets, size, step, fine) && k <= i < |offsets| && offsets[i] < size
    requires forall j :: k <= j < |offsets| ==> offsets[j] >= size - step
    ensures offsets[k] + Times(i - k, fine) <= offsets[i]
    decreases i
  {
    if i > k {
      assert Throttled(offsets, i, size, step, fine);
      FinePart(offsets, size, step, fine, k, i - 1);
    }
  }

  lemma CoarseCount(size: nat, step: nat, k: nat)
    requires step > 0 && k > 0 && Times(k, step) < size - step && size < 100 * step + 100
    ensures step > 1 ==> k <= 148
    ensures step == 1 ==> k + 1 < size
  {
    if step == 1 {
      TimesIsProduct(k, 1);
    } else if k >= 149 {
      TimesAtLeast(k, 149, step);
      TimesIsProduct(149, step);
    }
  }

  lemma FineCount(step: nat, fine: nat, m: nat)
    requires Times(m, fine) < step < 32 * fine
    ensures m <= 31
    ensures step == 1 && fine == 1 ==> m == 0
  {
    TimesIsProduct(32, fine);
    if m >= 32 { TimesAtLeast(m, 32, fine); }
    if m >= 1 { TimesAtLeast(m, 1, fine); }
  }

  /** However large the document and whatever offsets are offered, the callback runs at most 199 times. */
  lemma AtMost199Reports(offsets: seq<nat>, size: nat)
    requires size > 0 && Spaced(offsets, size, StepOf(size), FineStep(StepOf(size)))
    ensures |offsets| <= 199
  {
    Steps(size);
    CountReports(offsets, size, StepOf(size), FineStep(StepOf(size)));
  }

  lemma CountReports(offsets: seq<nat>, size: nat, step: nat, fine: nat)
    requires size > 0 && Spaced(offsets, size, step, fine)
    requires 0 < step < 32 * fine && size < 100 * step + 100 && (step == 1 ==> size <= 199 && fine == 1)
    ensures |offsets| <= 199
  {
    var k := CoarsePart(offsets, size, step, fine);
    if k > 0 { CoarseCount(size, step, k); }
    var n := |offsets|;
    if n > k + 1 {
      // every report but the last is before the end of the document
      assert Throttled(offsets, n - 1, size, step, fine);
      FinePart(offsets, size, step, fine, k, n - 2);
      FineCount(step, fine, n - 2 - k);
    }
  }
}
