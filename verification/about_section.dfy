/**
 The about section: one reveal latch for the whole section, and three stat
 tiles whose transitions are staggered by 150 ms.
 */
module AboutSection {
  import Latch

  /** Number of stat tiles. */
  const StatCount: nat := 3

  /** Transition delay step between consecutive stats, in ms. */
  const StatDelayStepMs: nat := 150

  datatype About = About(visible: bool)

  function Init(): (a: About)
    ensures !a.visible
  {
    About(false)
  }

  /** The observer callback applied to one batch of entries. */
  function HandleEntries(a: About, entries: seq<bool>): (r: About)
    ensures r.visible <==> a.visible || Latch.AnyIntersecting(entries)
  {
    About(Latch.Observe(a.visible, entries))
  }

  /** The transition delay of each stat tile, in display order. */
  function StatDelays(): (r: seq<nat>)
    ensures |r| == StatCount
  {
    seq(StatCount, i => i * StatDelayStepMs)
  }

  /** The section after a sequence of observer batches: hidden until a
      batch reports an intersecting entry, visible from then on. */
  function HandleAll(a: About, batches: seq<seq<bool>>): (r: About)
    ensures r.visible <==>
              a.visible || exists k :: 0 <= k < |batches| && Latch.AnyIntersecting(batches[k])
  {
    About(Latch.ObserveAll(a.visible, batches))
  }

  /** The three stat tiles start at 0, 150 and 300 ms. */
  lemma StatDelayValues()
    ensures StatDelays() == [0, 150, 300]
    ensures forall i :: 0 <= i < StatCount ==> StatDelays()[i] == i * 150
  {
  }
}
