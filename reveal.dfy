/**
 * Reveal on scroll: each `.reveal` element gains the "is-visible" marker the
 * first time it intersects the viewport and then leaves the observed set;
 * without observer support every element is marked at once.
 */
module Reveal {
  /** One intersection entry: the element's position among the `.reveal` elements. */
  datatype RevealEntry = RevealEntry(target: nat, isIntersecting: bool)

  /** The markers after one callback batch, entry by entry. */
  function AfterBatch(visible: seq<bool>, entries: seq<RevealEntry>): (r: seq<bool>)
    ensures |r| == |visible|
  {
    if entries == [] then visible
    else
      var w := AfterBatch(visible, entries[..|entries| - 1]);
      var e := entries[|entries| - 1];
      if e.isIntersecting && e.target < |w| then w[e.target := true] else w
  }

  /** Some entry of the batch reports element `i` as intersecting. */
  predicate ReportedVisible(entries: seq<RevealEntry>, i: nat)
  {
    exists k :: 0 <= k < |entries| && entries[k].isIntersecting && entries[k].target == i
  }

  /** The elements the batch reports as intersecting: those the callback unobserves. */
  function IntersectingTargets(entries: seq<RevealEntry>): set<nat>
  {
    set k | 0 <= k < |entries| && entries[k].isIntersecting :: entries[k].target
  }

  /**
   * After a batch an element is marked exactly when it was marked before or
   * the batch reports it intersecting: markers are added and never removed.
   */
  lemma {:induction false} AfterBatchMarks(visible: seq<bool>, entries: seq<RevealEntry>)
    ensures forall i :: 0 <= i < |visible| ==>
              (AfterBatch(visible, entries)[i] <==> visible[i] || ReportedVisible(entries, i))
  {
    if entries != [] {
      var p := entries[..|entries| - 1];
      AfterBatchMarks(visible, p);
      forall i | 0 <= i < |visible|
        ensures ReportedVisible(entries, i) <==>
                  ReportedVisible(p, i) || (entries[|entries| - 1].isIntersecting && entries[|entries| - 1].target == i)
      {
        if ReportedVisible(entries, i) {
          var k :| 0 <= k < |entries| && entries[k].isIntersecting && entries[k].target == i;
          if k < |p| {
            assert p[k] == entries[k];
          }
        }
        if ReportedVisible(p, i) {
          var k :| 0 <= k < |p| && p[k].isIntersecting && p[k].target == i;
          assert entries[k] == p[k];
        }
      }
    }
  }

  /** The markers after a run of batches. */
  function AfterBatches(visible: seq<bool>, batches: seq<seq<RevealEntry>>): (r: seq<bool>)
    ensures |r| == |visible|
    decreases |batches|
  {
    if batches == [] then visible
    else AfterBatches(AfterBatch(visible, batches[0]), batches[1..])
  }

  /** A marker once set survives every later sequence of batches. */
  lemma {:induction false} MarkersNeverRemoved(visible: seq<bool>, batches: seq<seq<RevealEntry>>)
    ensures forall i :: 0 <= i < |visible| && visible[i] ==> AfterBatches(visible, batches)[i]
    decreases |batches|
  {
    if batches != [] {
      AfterBatchMarks(visible, batches[0]);
      MarkersNeverRemoved(AfterBatch(visible, batches[0]), batches[1..]);
    }
  }

  /** The positions `0 .. n - 1`: every element, as start-up observes them. */
  function Positions(n: nat): (s: set<nat>)
    ensures forall i: nat :: i in s <==> i < n
  {
    if n == 0 then {} else Positions(n - 1) + {n - 1}
  }

  /** The `.reveal` elements' markers and the set the observer still watches. */
  class RevealGroup {
    const visible: array<bool>
    var observed: set<nat>

    constructor (markupVisible: seq<bool>)
      ensures fresh(visible) && visible[..] == markupVisible && observed == {}
    {
      visible := new bool[|markupVisible|](i requires 0 <= i < |markupVisible| => markupVisible[i]);
      observed := {};
    }

    /**
     * Start-up: with at least one element and observer support, watch every
     * element; otherwise mark every element visible at once.
     */
    method Start(observerSupported: bool)
      modifies this, visible
      ensures visible.Length > 0 && observerSupported ==>
                observed == Positions(visible.Length) && visible[..] == old(visible[..])
      ensures !(visible.Length > 0 && observerSupported) ==>
                observed == old(observed) && forall i :: 0 <= i < visible.Length ==> visible[i]
    {
      if visible.Length > 0 && observerSupported {
        observed := Positions(visible.Length);
      } else {
        for i := 0 to visible.Length
          invariant forall k :: 0 <= k < i ==> visible[k]
          invariant observed == old(observed)
        {
          visible[i] := true;
        }
      }
    }

    /** The observer callback for one batch: mark and unobserve each intersecting target. */
    method OnIntersections(entries: seq<RevealEntry>)
      requires forall k :: 0 <= k < |entries| ==> entries[k].target < visible.Length
      modifies this`observed, visible
      ensures visible[..] == AfterBatch(old(visible[..]), entries)
      ensures observed == old(observed) - IntersectingTargets(entries)
    {
      for i := 0 to |entries|
        invariant visible[..] == AfterBatch(old(visible[..]), entries[..i])
        invariant observed == old(observed) - IntersectingTargets(entries[..i])
      {
        assert entries[..i + 1][..i] == entries[..i];
        assert IntersectingTargets(entries[..i + 1]) ==
               IntersectingTargets(entries[..i]) + (if entries[i].isIntersecting then {entries[i].target} else {});
        var entry := entries[i];
        if !entry.isIntersecting {
          continue;
        }
        visible[entry.target] := true;
        observed := observed - {entry.target};
      }
      assert entries[..|entries|] == entries;
    }
  }
}
