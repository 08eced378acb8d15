/**
 The one-shot reveal latch shared by the about, contact and feature sections.

 An intersection observer hands its callback a batch of entries; the only
 thing the callback looks at is each entry's `isIntersecting` flag, so a
 batch is modelled as a `seq<bool>`. For every intersecting entry the
 callback sets the latch to `true`; nothing ever sets it back to `false`.
 */
module Latch {

  /** True iff some entry of the batch reports `isIntersecting`. */
  predicate AnyIntersecting(entries: seq<bool>) {
    exists i :: 0 <= i < |entries| && entries[i]
  }

  /** The latch after the callback has walked the batch entry by entry. */
  function Observe(visible: bool, entries: seq<bool>): (r: bool)
    ensures r <==> visible || AnyIntersecting(entries)
    decreases |entries|
  {
    if |entries| == 0 then visible
    else
      var next := if entries[0] then true else visible;
      assert forall i :: 1 <= i < |entries| ==> entries[i] == entries[1..][i - 1];
      Observe(next, entries[1..])
  }

  /** The latch after a whole lifetime of callback batches, in order. */
  function ObserveAll(visible: bool, batches: seq<seq<bool>>): (r: bool)
    ensures r <==> visible || exists k :: 0 <= k < |batches| && AnyIntersecting(batches[k])
    decreases |batches|
  {
    if |batches| == 0 then visible
    else
      assert forall k :: 1 <= k < |batches| ==> batches[k] == batches[1..][k - 1];
      ObserveAll(Observe(visible, batches[0]), batches[1..])
  }

  /** Once set, the latch survives any further batch, and a batch with no
      intersecting entry changes nothing. */
  lemma Sticky(visible: bool, entries: seq<bool>)
    ensures visible ==> Observe(visible, entries)
    ensures !AnyIntersecting(entries) ==> Observe(visible, entries) == visible
  {
  }
}
