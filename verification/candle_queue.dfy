/**
 The candle effect queue of the home section.

 A window click inside the home section's vertical range spawns a candle
 marker carrying the click position, a fresh id from a counter, and a
 direction: `Up` when the click lies strictly within 250 px of the section's
 centre point, `Down` otherwise. Each candle is removed again by its own
 timer 1500 ms later; here that timer is the explicit `Expire(id)` event,
 which filters the list by id.
 */
module CandleQueue {

  datatype Direction = Up | Down

  /** One marker; the source's wall-clock timestamp is not modelled. */
  datatype Candle = Candle(id: nat, x: real, y: real, direction: Direction)

  /** The bounding rectangle of the home section, as the three fields the
      click handler reads. */
  datatype Rect = Rect(top: real, bottom: real, height: real)

  /** The candle list together with the id counter. */
  datatype Queue = Queue(candles: seq<Candle>, nextId: nat)

  /** Distance, in px, under which a click counts as central. */
  const Threshold: real := 250.0

  /** Lifetime of a candle in ms; only a label for when `Expire` fires. */
  const LifetimeMs: nat := 1500

  datatype Event =
    | Click(clientX: real, clientY: real, innerWidth: real, rect: Rect)
    | Expire(id: nat)

  function Init(): (q: Queue)
    ensures |q.candles| == 0 && q.nextId == 0
  {
    Queue([], 0)
  }

  /** The click's vertical coordinate lies in the closed range of the section. */
  predicate InSection(clientY: real, rect: Rect) {
    rect.top <= clientY <= rect.bottom
  }

  /** Squared Euclidean distance from the click to the reference point
      `(innerWidth / 2, rect.top + rect.height / 2)`. */
  function SquaredDistance(clientX: real, clientY: real, innerWidth: real, rect: Rect): (r: real)
    ensures r >= 0.0
    ensures clientX == innerWidth / 2.0 && clientY == rect.top + rect.height / 2.0 ==> r == 0.0
  {
    var dx := clientX - innerWidth / 2.0;
    var dy := clientY - (rect.top + rect.height / 2.0);
    SquareNonNegative(dx);
    SquareNonNegative(dy);
    dx * dx + dy * dy
  }

  /** A square is non-negative. */
  lemma SquareNonNegative(d: real)
    ensures d * d >= 0.0
  {
    if d < 0.0 {
      assert d * d == (-d) * (-d);
    }
  }

  /** Classification by distance, compared squared so that no square root is needed. */
  function Classify(clientX: real, clientY: real, innerWidth: real, rect: Rect): Direction {
    if SquaredDistance(clientX, clientY, innerWidth, rect) < Threshold * Threshold then Up else Down
  }

  /** The list of ids, in list order. */
  function Ids(cs: seq<Candle>): (r: seq<nat>)
    ensures |r| == |cs|
    ensures forall i :: 0 <= i < |cs| ==> r[i] == cs[i].id
  {
    seq(|cs|, i requires 0 <= i < |cs| => cs[i].id)
  }

  /** The queue invariant: ids strictly increase along the list and are all
      below the counter. Hence ids are unique (the render keys) and the
      next id is fresh. */
  ghost predicate Valid(q: Queue) {
    && Increasing(q.candles)
    && (forall i :: 0 <= i < |q.candles| ==> q.candles[i].id < q.nextId)
  }

  /** Ids strictly increase along the list. */
  ghost predicate Increasing(cs: seq<Candle>) {
    forall i, j :: 0 <= i < j < |cs| ==> cs[i].id < cs[j].id
  }

  /** The click handler: reject outside the section, otherwise append one
      classified candle and advance the counter. */
  function HandleClick(q: Queue, clientX: real, clientY: real, innerWidth: real, rect: Rect): (r: Queue)
    ensures !InSection(clientY, rect) ==> r == q
    ensures InSection(clientY, rect) ==>
              && |r.candles| == |q.candles| + 1
              && r.candles[..|q.candles|] == q.candles
              && r.candles[|q.candles|].id == q.nextId
              && r.candles[|q.candles|].x == clientX
              && r.candles[|q.candles|].y == clientY
              && (r.candles[|q.candles|].direction == Up <==>
                    SquaredDistance(clientX, clientY, innerWidth, rect) < 62500.0)
              && r.nextId == q.nextId + 1
  {
    if !InSection(clientY, rect) then q
    else
      var candle := Candle(q.nextId, clientX, clientY, Classify(clientX, clientY, innerWidth, rect));
      Queue(q.candles + [candle], q.nextId + 1)
  }

  /** The list with every candle of the given id filtered out. */
  function Without(cs: seq<Candle>, id: nat): (r: seq<Candle>)
    ensures forall c :: c in r <==> c in cs && c.id != id
    ensures |r| <= |cs|
    decreases |cs|
  {
    if |cs| == 0 then []
    else (if cs[0].id != id then [cs[0]] else []) + Without(cs[1..], id)
  }

  /** The expiry timer of candle `id`: filter the list, keep the counter. */
  function HandleExpire(q: Queue, id: nat): (r: Queue)
    ensures r.nextId == q.nextId
    ensures forall c :: c in r.candles <==> c in q.candles && c.id != id
    ensures (forall i :: 0 <= i < |q.candles| ==> q.candles[i].id != id) ==> r == q
  {
    var r := Queue(Without(q.candles, id), q.nextId);
    if forall i :: 0 <= i < |q.candles| ==> q.candles[i].id != id then
      NoSuchIdKeeps(q.candles, id); r
    else r
  }

  function Step(q: Queue, e: Event): Queue {
    match e
    case Click(x, y, w, rect) => HandleClick(q, x, y, w, rect)
    case Expire(id) => HandleExpire(q, id)
  }

  function Run(q: Queue, events: seq<Event>): Queue
    decreases |events|
  {
    if |events| == 0 then q else Run(Step(q, events[0]), events[1..])
  }

  /** The queue after the timers of the given ids have fired, in order. */
  function ExpireAll(q: Queue, ids: seq<nat>): Queue
    decreases |ids|
  {
    if |ids| == 0 then q else ExpireAll(HandleExpire(q, ids[0]), ids[1..])
  }

  // ---------------------------------------------------------------------------
  // Classification

  /** For `d >= 0`, `d * d < 250 * 250` exactly when `d < 250`. */
  lemma SquareBelowThreshold(d: real)
    requires d >= 0.0
    ensures d * d < Threshold * Threshold <==> d < Threshold
  {
    if d < Threshold {
      assert d * d <= d * Threshold;
      assert d * Threshold < Threshold * Threshold;
    } else {
      assert d * d >= d * Threshold;
      assert d * Threshold >= Threshold * Threshold;
    }
  }

  /** The direction is `Up` exactly when the Euclidean distance `d` from the
      reference point is strictly below 250. */
  lemma ClassifyByDistance(clientX: real, clientY: real, innerWidth: real, rect: Rect, d: real)
    requires d >= 0.0 && d * d == SquaredDistance(clientX, clientY, innerWidth, rect)
    ensures Classify(clientX, clientY, innerWidth, rect) == Up <==> d < Threshold
  {
    SquareBelowThreshold(d);
  }

  /** A click at distance exactly 250 is classified `Down`; a click on the
      reference point itself is classified `Up`. */
  lemma ClassifyEdgeCases(innerWidth: real, rect: Rect)
    ensures Classify(innerWidth / 2.0 + Threshold, rect.top + rect.height / 2.0, innerWidth, rect) == Down
    ensures Classify(innerWidth / 2.0, rect.top + rect.height / 2.0, innerWidth, rect) == Up
  {
  }

  /** The click is accepted exactly when its `clientY` lies in the closed
      range `[rect.top, rect.bottom]`: both edges are accepted. */
  lemma ClickRange(q: Queue, clientX: real, clientY: real, innerWidth: real, rect: Rect)
    ensures HandleClick(q, clientX, clientY, innerWidth, rect) != q <==> rect.top <= clientY <= rect.bottom
    ensures rect.top <= rect.bottom ==>
              && |HandleClick(q, clientX, rect.top, innerWidth, rect).candles| == |q.candles| + 1
              && |HandleClick(q, clientX, rect.bottom, innerWidth, rect).candles| == |q.candles| + 1
  {
  }

  // ---------------------------------------------------------------------------
  // Filtering

  lemma {:induction false} NoSuchIdKeeps(cs: seq<Candle>, id: nat)
    requires forall i :: 0 <= i < |cs| ==> cs[i].id != id
    ensures Without(cs, id) == cs
    decreases |cs|
  {
    if |cs| > 0 {
      NoSuchIdKeeps(cs[1..], id);
      assert [cs[0]] + cs[1..] == cs;
    }
  }

  /** Filtering distributes over concatenation: relative order is kept. */
  lemma {:induction false} WithoutConcat(a: seq<Candle>, b: seq<Candle>, id: nat)
    ensures Without(a + b, id) == Without(a, id) + Without(b, id)
    decreases |a|
  {
    if |a| == 0 {
      assert a + b == b;
    } else {
      assert (a + b)[1..] == a[1..] + b;
      WithoutConcat(a[1..], b, id);
    }
  }

  /** Filtering twice by the same id is filtering once. */
  lemma {:induction false} WithoutIdempotent(cs: seq<Candle>, id: nat)
    ensures Without(Without(cs, id), id) == Without(cs, id)
    decreases |cs|
  {
    if |cs| > 0 {
      WithoutIdempotent(cs[1..], id);
      var head := if cs[0].id != id then [cs[0]] else [];
      WithoutConcat(head, Without(cs[1..], id), id);
      if cs[0].id != id {
        assert Without(head, id) == head by {
          assert head[1..] == [];
        }
      }
    }
  }

  /** Filtering keeps a strictly increasing order of ids. */
  lemma {:induction false} WithoutSorted(cs: seq<Candle>, id: nat)
    requires Increasing(cs)
    ensures Increasing(Without(cs, id))
    decreases |cs|
  {
    if |cs| > 0 {
      var tail := cs[1..];
      WithoutSorted(tail, id);
      if cs[0].id != id {
        var rt := Without(tail, id);
        assert forall k :: 0 <= k < |rt| ==> rt[k] in tail;
        HeadBelowRest(cs[0], rt);
      }
    }
  }

  /** Putting a candle in front of an increasing list whose ids all exceed
      its own keeps the list increasing. */
  lemma HeadBelowRest(c: Candle, rest: seq<Candle>)
    requires Increasing(rest)
    requires forall k :: 0 <= k < |rest| ==> c.id < rest[k].id
    ensures Increasing([c] + rest)
  {
  }

  /** In an increasing list a present id is taken out exactly once. */
  lemma {:induction false} WithoutRemovesOne(cs: seq<Candle>, id: nat, i: nat)
    requires Increasing(cs)
    requires i < |cs| && cs[i].id == id
    ensures |Without(cs, id)| == |cs| - 1
    decreases |cs|
  {
    var tail := cs[1..];
    if i == 0 {
      NoSuchIdKeeps(tail, id);
    } else {
      WithoutRemovesOne(tail, id, i - 1);
    }
  }

  // ---------------------------------------------------------------------------
  // Invariant and traces

  lemma InitValid()
    ensures Valid(Init())
  {
  }

  /** An accepted click keeps the ids strictly increasing, and its id was not
      in use before. */
  lemma ClickPreservesValid(q: Queue, clientX: real, clientY: real, innerWidth: real, rect: Rect)
    requires Valid(q)
    ensures Valid(HandleClick(q, clientX, clientY, innerWidth, rect))
    ensures forall i :: 0 <= i < |q.candles| ==> q.candles[i].id != q.nextId
  {
  }

  /** Expiry keeps the invariant; a present id takes exactly one candle out,
      and expiring it a second time changes nothing. */
  lemma ExpirePreservesValid(q: Queue, id: nat)
    requires Valid(q)
    ensures Valid(HandleExpire(q, id))
    ensures (exists i :: 0 <= i < |q.candles| && q.candles[i].id == id) ==>
              |HandleExpire(q, id).candles| == |q.candles| - 1
    ensures HandleExpire(HandleExpire(q, id), id) == HandleExpire(q, id)
  {
    WithoutSorted(q.candles, id);
    WithoutIdempotent(q.candles, id);
    var r := HandleExpire(q, id);
    assert forall k :: 0 <= k < |r.candles| ==> r.candles[k] in q.candles;
    if exists i :: 0 <= i < |q.candles| && q.candles[i].id == id {
      var i :| 0 <= i < |q.candles| && q.candles[i].id == id;
      WithoutRemovesOne(q.candles, id, i);
    }
  }

  /** Every reachable queue satisfies the invariant. */
  lemma {:induction false} RunPreservesValid(q: Queue, events: seq<Event>)
    requires Valid(q)
    ensures Valid(Run(q, events))
    decreases |events|
  {
    if |events| > 0 {
      match events[0] {
        case Click(x, y, w, rect) => ClickPreservesValid(q, x, y, w, rect);
        case Expire(id) => ExpirePreservesValid(q, id);
      }
      RunPreservesValid(Step(q, events[0]), events[1..]);
    }
  }

  /** The queue drains: once the timer of every candle in it has fired, the
      list is empty and the counter is unchanged. */
  lemma {:induction false} DrainAfterAllTimers(q: Queue, ids: seq<nat>)
    requires forall i :: 0 <= i < |q.candles| ==> q.candles[i].id in ids
    ensures ExpireAll(q, ids).candles == []
    ensures ExpireAll(q, ids).nextId == q.nextId
    decreases |ids|
  {
    if |ids| == 0 {
    } else {
      var q' := HandleExpire(q, ids[0]);
      forall i | 0 <= i < |q'.candles|
        ensures q'.candles[i].id in ids[1..]
      {
        var c := q'.candles[i];
        assert c in q'.candles;
        assert c in q.candles && c.id != ids[0];
        var k :| 0 <= k < |q.candles| && q.candles[k] == c;
        assert c.id in ids;
        var m :| 0 <= m < |ids| && ids[m] == c.id;
        assert ids[1..][m - 1] == c.id;
      }
      DrainAfterAllTimers(q', ids[1..]);
    }
  }

  /** Firing the timers of the candles currently listed, oldest first,
      empties the list. */
  lemma QueueDrains(q: Queue)
    ensures ExpireAll(q, Ids(q.candles)).candles == []
  {
    var ids := Ids(q.candles);
    forall i | 0 <= i < |q.candles|
      ensures q.candles[i].id in ids
    {
      assert ids[i] == q.candles[i].id;
    }
    DrainAfterAllTimers(q, ids);
  }

  /** Expiry undoes a click: after an accepted click, the timer of the new
      candle brings the list back to what it was before the click. */
  lemma ExpireUndoesClick(q: Queue, clientX: real, clientY: real, innerWidth: real, rect: Rect)
    requires Valid(q)
    ensures HandleExpire(HandleClick(q, clientX, clientY, innerWidth, rect), q.nextId).candles == q.candles
  {
    var q1 := HandleClick(q, clientX, clientY, innerWidth, rect);
    NoSuchIdKeeps(q.candles, q.nextId);
    if InSection(clientY, rect) {
      var added := [q1.candles[|q.candles|]];
      assert q1.candles == q.candles + added;
      WithoutConcat(q.candles, added, q.nextId);
      assert Without(added, q.nextId) == [] by {
        assert added[1..] == [];
      }
    }
  }

  /** Scenario: a click on the reference point inside the section adds one
      `Up` candle, and its timer takes the list back to where it was. */
  lemma CentreClickScenario(q: Queue, innerWidth: real, rect: Rect)
    requires Valid(q)
    requires rect.top <= rect.top + rect.height / 2.0 <= rect.bottom
    ensures var x := innerWidth / 2.0;
            var y := rect.top + rect.height / 2.0;
            var q1 := HandleClick(q, x, y, innerWidth, rect);
            && |q1.candles| == |q.candles| + 1
            && q1.candles[|q.candles|].direction == Up
            && HandleExpire(q1, q.nextId).candles == q.candles
  {
    var x := innerWidth / 2.0;
    var y := rect.top + rect.height / 2.0;
    assert SquaredDistance(x, y, innerWidth, rect) == 0.0;
    ExpireUndoesClick(q, x, y, innerWidth, rect);
  }
}
