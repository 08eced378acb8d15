/**
 The active-section tracker of the page root, and the navigation highlight it
 feeds.

 On every scroll event the page root walks the `.section` elements in
 document order and, for each one whose half-open vertical extent
 `[offsetTop, offsetTop + offsetHeight)` contains the probe point
 `scrollY + innerHeight / 2`, stores that element's index as the current
 section. Every match overwrites the previous one, so the last matching
 index wins; with no match the previous index is kept.
 */
module SectionTracker {

  /** A section's vertical extent as laid out by the browser. */
  datatype Section = Section(top: real, height: real)

  /** The index the tracker holds before the first scroll event. */
  const InitialSection: int := 0

  /** The navigation bar's items, in the same order as the sections. */
  const NavItems: seq<string> := ["home", "about", "features", "contact"]

  /** The half-open containment test of one section. */
  predicate Contains(s: Section, probe: real) {
    s.top <= probe < s.top + s.height
  }

  /** The probe point: the vertical middle of the viewport, in page coordinates. */
  function Probe(scrollY: real, innerHeight: real): (r: real)
    ensures r - scrollY == (scrollY + innerHeight) - r
    ensures innerHeight >= 0.0 ==> scrollY <= r <= scrollY + innerHeight
  {
    scrollY + innerHeight / 2.0
  }

  /** No section contains the probe. */
  ghost predicate NoMatch(sections: seq<Section>, probe: real) {
    forall j :: 0 <= j < |sections| ==> !Contains(sections[j], probe)
  }

  /** Index `i` contains the probe and no later section does. */
  ghost predicate IsLastMatch(sections: seq<Section>, probe: real, i: int) {
    && 0 <= i < |sections|
    && Contains(sections[i], probe)
    && forall j :: i < j < |sections| ==> !Contains(sections[j], probe)
  }

  /** The scan as a left fold: the last step of the fold is the scan's last
      iteration, which overwrites the result when its section matches. */
  function Scan(prev: int, sections: seq<Section>, probe: real): (r: int)
    ensures NoMatch(sections, probe) ==> r == prev
    ensures !NoMatch(sections, probe) ==> IsLastMatch(sections, probe, r)
    decreases |sections|
  {
    if |sections| == 0 then prev
    else
      var last := |sections| - 1;
      var before := Scan(prev, sections[..last], probe);
      if Contains(sections[last], probe) then last else before
  }

  /** The scroll handler: the same scan written as the handler's loop. */
  method HandleScroll(current: int, sections: seq<Section>, scrollY: real, innerHeight: real)
    returns (next: int)
    ensures next == Scan(current, sections, Probe(scrollY, innerHeight))
    ensures NoMatch(sections, Probe(scrollY, innerHeight)) ==> next == current
    ensures !NoMatch(sections, Probe(scrollY, innerHeight)) ==>
              IsLastMatch(sections, Probe(scrollY, innerHeight), next)
  {
    var probe := scrollY + innerHeight / 2.0;
    next := current;
    var i := 0;
    while i < |sections|
      invariant 0 <= i <= |sections|
      invariant next == Scan(current, sections[..i], probe)
    {
      var sectionTop := sections[i].top;
      var sectionBottom := sectionTop + sections[i].height;
      assert sections[..i + 1][..i] == sections[..i];
      if probe >= sectionTop && probe < sectionBottom {
        next := i;
      }
      i := i + 1;
    }
    assert sections[..i] == sections;
  }

  /** One scroll event. The handler re-reads the layout and the viewport on
      every event, so each event carries its own. */
  datatype ScrollEvent = ScrollEvent(sections: seq<Section>, scrollY: real, innerHeight: real)

  /** The tracker after a run of scroll events. */
  function ScrollAll(current: int, events: seq<ScrollEvent>): int
    decreases |events|
  {
    if |events| == 0 then current
    else
      var e := events[0];
      ScrollAll(Scan(current, e.sections, Probe(e.scrollY, e.innerHeight)), events[1..])
  }

  /** A scan moves the index only onto a section that contains the probe; a
      fresh value is always a valid index. */
  lemma ScanIsMatchOrPrevious(prev: int, sections: seq<Section>, probe: real)
    ensures var r := Scan(prev, sections, probe);
            r == prev || (0 <= r < |sections| && Contains(sections[r], probe))
  {
  }

  /** Half-open boundaries: the probe at a section's top selects it (when it
      has positive height and no later section claims the point), the probe
      at its bottom edge does not. */
  lemma HalfOpenBoundary(prev: int, sections: seq<Section>, i: int)
    requires 0 <= i < |sections|
    requires sections[i].height > 0.0
    requires forall j :: i < j < |sections| ==> !Contains(sections[j], sections[i].top)
    ensures Scan(prev, sections, sections[i].top) == i
    ensures !Contains(sections[i], sections[i].top + sections[i].height)
  {
  }

  /** On overlapping sections the later one wins. */
  lemma LaterOverlapWins(prev: int, sections: seq<Section>, probe: real, i: int, j: int)
    requires 0 <= i < j < |sections|
    requires Contains(sections[i], probe) && Contains(sections[j], probe)
    ensures Scan(prev, sections, probe) != i
    ensures Scan(prev, sections, probe) >= j
  {
  }

  /** Starting from a valid index, such as the initial one, the tracker
      holds a valid index after any run of scroll events, as long as the
      page keeps the same number of sections (their extents may change). */
  lemma {:induction false} ScrollAllInRange(current: int, n: nat, events: seq<ScrollEvent>)
    requires 0 <= current < n
    requires forall k :: 0 <= k < |events| ==> |events[k].sections| == n
    ensures 0 <= ScrollAll(current, events) < n
    decreases |events|
  {
    if |events| > 0 {
      var e := events[0];
      var next := Scan(current, e.sections, Probe(e.scrollY, e.innerHeight));
      assert 0 <= next < n;
      assert forall k :: 0 <= k < |events[1..]| ==> events[1..][k] == events[k + 1];
      ScrollAllInRange(next, n, events[1..]);
    }
  }

  /** A run of scroll events whose probes all fall in gaps of the layout
      read at that event keeps the index. */
  lemma {:induction false} GapsKeepIndex(current: int, events: seq<ScrollEvent>)
    requires forall k :: 0 <= k < |events| ==>
               NoMatch(events[k].sections, Probe(events[k].scrollY, events[k].innerHeight))
    ensures ScrollAll(current, events) == current
    decreases |events|
  {
    if |events| > 0 {
      assert forall k :: 0 <= k < |events[1..]| ==> events[1..][k] == events[k + 1];
      GapsKeepIndex(current, events[1..]);
    }
  }

  /** The navigation highlight test of one item. */
  predicate NavHighlighted(currentSection: int, index: int) {
    currentSection == index
  }

  /** On a page whose sections match the navigation items, exactly one item
      is highlighted after any run of scroll events; before the first one it
      is "home". */
  lemma ExactlyOneHighlighted(events: seq<ScrollEvent>)
    requires forall k :: 0 <= k < |events| ==> |events[k].sections| == |NavItems|
    ensures var current := ScrollAll(InitialSection, events);
            (set i | 0 <= i < |NavItems| && NavHighlighted(current, i)) == {current}
    ensures (set i | 0 <= i < |NavItems| && NavHighlighted(InitialSection, i)) == {0}
    ensures NavItems[InitialSection] == "home"
  {
    ScrollAllInRange(InitialSection, |NavItems|, events);
  }
}
