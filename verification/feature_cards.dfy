/**
 The features section: six cards, each with its own reveal latch, a layout
 position and an animation delay derived from its index, and a single
 hovered-card slot.

 Each card has its own intersection observer; for every intersecting entry
 in a batch, that card's callback copies the visibility array and sets the
 card's own entry to `true`.
 */
module FeatureCards {
  import Latch

  /** Number of feature cards rendered. */
  const CardCount: nat := 6

  /** Animation delay step between consecutive cards, in ms. */
  const DelayStepMs: nat := 100

  datatype Position = Left | Center | Right

  /** The hovered card, or none. */
  datatype Hover = NoCard | Card(index: nat)

  datatype Features = Features(visibility: seq<bool>, hovered: Hover)

  function Init(): (r: Features)
    ensures |r.visibility| == CardCount
    ensures forall i :: 0 <= i < |r.visibility| ==> !r.visibility[i]
    ensures r.hovered == NoCard
  {
    Features(seq(CardCount, _ => false), NoCard)
  }

  /** The observer callback of card `index`, applied to a batch of entries. */
  function MarkCard(vis: seq<bool>, index: nat, entries: seq<bool>): (r: seq<bool>)
    requires index < |vis|
    ensures |r| == |vis|
    ensures r[index] <==> vis[index] || Latch.AnyIntersecting(entries)
    ensures forall j :: 0 <= j < |vis| && j != index ==> r[j] == vis[j]
    decreases |entries|
  {
    if |entries| == 0 then vis
    else
      var next := if entries[0] then vis[index := true] else vis;
      assert forall i :: 1 <= i < |entries| ==> entries[i] == entries[1..][i - 1];
      MarkCard(next, index, entries[1..])
  }

  datatype Event =
    | CardEntries(index: nat, entries: seq<bool>)
    | Enter(index: nat)
    | Leave

  /** One event. Observers exist only for rendered cards, so a batch for an
      index outside the array has no callback to run. */
  function Step(f: Features, e: Event): (r: Features)
    ensures |r.visibility| == |f.visibility|
    ensures forall j :: 0 <= j < |f.visibility| && f.visibility[j] ==> r.visibility[j]
    ensures !e.CardEntries? ==> r.visibility == f.visibility
    ensures e.CardEntries? ==> r.hovered == f.hovered
    ensures e.CardEntries? && e.index >= |f.visibility| ==> r == f
  {
    match e
    case CardEntries(index, entries) =>
      if index < |f.visibility| then f.(visibility := MarkCard(f.visibility, index, entries)) else f
    case Enter(index) => MouseEnter(f, index)
    case Leave => MouseLeave(f)
  }

  function Run(f: Features, events: seq<Event>): Features
    decreases |events|
  {
    if |events| == 0 then f else Run(Step(f, events[0]), events[1..])
  }

  /** The layout position class of a card in the three-column grid. */
  function PositionOf(index: nat): (p: Position)
    ensures p == Left <==> index % 3 == 0
    ensures p == Center <==> index % 3 == 1
    ensures p == Right <==> index % 3 == 2
  {
    if index % 3 == 0 then Left else if index % 3 == 2 then Right else Center
  }

  /** A card's animation delay, in ms. */
  function AnimationDelay(index: nat): (d: nat)
    ensures d % DelayStepMs == 0 && d / DelayStepMs == index
  {
    index * DelayStepMs
  }

  function MouseEnter(f: Features, index: nat): (r: Features)
    ensures r.visibility == f.visibility
    ensures Highlighted(r, index)
  {
    f.(hovered := Card(index))
  }

  /** Leaving any card clears the slot, whichever card is recorded there. */
  function MouseLeave(f: Features): (r: Features)
    ensures r.visibility == f.visibility
    ensures forall i :: !Highlighted(r, i)
  {
    f.(hovered := NoCard)
  }

  /** The highlight test of one card. */
  predicate Highlighted(f: Features, index: nat) {
    f.hovered == Card(index)
  }

  /** A batch with no intersecting entry leaves the array unchanged; the
      array only ever gains `true` entries; applying a batch twice is the
      same as applying it once. */
  lemma MarkCardMonotone(vis: seq<bool>, index: nat, entries: seq<bool>)
    requires index < |vis|
    ensures !Latch.AnyIntersecting(entries) ==> MarkCard(vis, index, entries) == vis
    ensures forall j :: 0 <= j < |vis| && vis[j] ==> MarkCard(vis, index, entries)[j]
    ensures var r := MarkCard(vis, index, entries);
            MarkCard(r, index, entries) == r
  {
    var r := MarkCard(vis, index, entries);
    if !Latch.AnyIntersecting(entries) {
      assert r == vis;
    }
    assert MarkCard(r, index, entries) == r;
  }

  /** Over any run of events the array keeps its length and no card that
      has been revealed is hidden again. */
  lemma {:induction false} RunKeepsRevealed(f: Features, events: seq<Event>)
    ensures |Run(f, events).visibility| == |f.visibility|
    ensures forall j :: 0 <= j < |f.visibility| && f.visibility[j] ==> Run(f, events).visibility[j]
    decreases |events|
  {
    if |events| > 0 {
      var f' := Step(f, events[0]);
      assert |f'.visibility| == |f.visibility|;
      assert forall j :: 0 <= j < |f.visibility| && f.visibility[j] ==> f'.visibility[j];
      RunKeepsRevealed(f', events[1..]);
    }
  }

  /** Positions cycle left, center, right along each row of three cards. */
  lemma PositionCycles(index: nat)
    ensures PositionOf(3 * index) == Left
    ensures PositionOf(3 * index + 1) == Center
    ensures PositionOf(3 * index + 2) == Right
    ensures PositionOf(index + 3) == PositionOf(index)
  {
  }

  /** The six cards lay out as two rows of left, center, right. */
  lemma SixCardLayout()
    ensures seq(CardCount, i requires 0 <= i => PositionOf(i)) == [Left, Center, Right, Left, Center, Right]
  {
  }

  /** Delays are staggered by exactly 100 ms, so a later card always starts
      later; the last of the six starts at 500 ms. */
  lemma DelaysStaggered(i: nat, j: nat)
    requires i < j
    ensures AnimationDelay(j) - AnimationDelay(i) == (j - i) * DelayStepMs
    ensures AnimationDelay(i) < AnimationDelay(j)
    ensures AnimationDelay(CardCount - 1) == 500
  {
  }

  /** At most one card is highlighted, the entered card is, and after a
      mouse-leave none is. */
  lemma HoverHighlight(f: Features, i: nat, j: nat, k: nat)
    ensures Highlighted(f, i) && Highlighted(f, j) ==> i == j
    ensures Highlighted(MouseEnter(f, k), i) <==> i == k
    ensures !Highlighted(MouseLeave(f), i)
  {
  }
}
