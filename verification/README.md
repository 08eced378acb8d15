# APEX landing page: state-update rules in Dafny

The APEX landing page is a single React page with four scroll sections:
home, about, features and contact. A navigation bar highlights the active
section. Almost all of it is markup. This project models the small pieces
of state logic inside it as immutable datatypes with pure transition
functions, and proves their properties:

- **Section tracker** (`SectionTracker`, `section_tracker.dfy`). On each
  scroll event the page root scans the sections' half-open intervals
  `[offsetTop, offsetTop + offsetHeight)` for the probe point
  `scrollY + innerHeight / 2`. It writes the index of every match, so the
  last match wins, and it keeps the old index when nothing matches. The
  navigation highlight is the test `currentSection == index`.
- **Candle effect queue** (`CandleQueue`, `candle_queue.dfy`). A click
  within the home section's closed vertical range appends a candle. The
  candle gets a fresh id, the click position, and a direction: `Up` when
  the click is strictly closer than 250 px to the reference point, `Down`
  otherwise. The model compares squared distances exactly over `real`.
  The 1500 ms timer of each candle is the explicit event `Expire(id)`,
  which filters the list by id.
- **Hero fade** (`HeroFade`, `hero_fade.dfy`). The hero text's opacity
  falls linearly from 1 to 0 over the first 500 px of scroll.
- **Contact form** (`ContactForm`, `contact_form.dfy`). This is the mocked
  submission machine. It has the events `Submit`, `LatencyElapsed` (the
  1500 ms delay), `DisplayElapsed` (the 3000 ms success display),
  `Change(field, value)`, and observer batches for the reveal latch. It
  also covers the button label and the button's disabled state.
- **Feature cards** (`FeatureCards`, `feature_cards.dfy`). There is one
  reveal latch per card in a six-entry array. The grid position class
  comes from `index % 3`, the animation delay is `index * 100` ms, and
  there is a single hovered-card slot.
- **About section** (`AboutSection`, `about_section.dfy`). It has one
  reveal latch and three stat tiles staggered by 150 ms.
- **Latch** (`latch.dfy`). This is the one-shot reveal latch that the
  three sections above share. An observer batch is the sequence of its
  entries' `isIntersecting` flags.

Timers, observers and DOM measurements become explicit event constructors
and plain parameters. Geometry is in `real`.

Two consequences of the code are worth stating, because a reader of the
page might expect otherwise:

- The scroll handler assigns the index of every containing section in
  document order (src/App.tsx:16-21), so when two intervals overlap the
  last containing section wins, not the first
  (`SectionTracker.LaterOverlapWins`).
- The submit button is disabled only while `isSubmitting`
  (src/components/ContactPage.tsx:138), not during the 3000 ms "Sent!"
  window. A second submission can therefore start while "Sent!" is
  showing, and the first cycle's display timer then sets the status to
  `idle` while the second submission is in flight
  (`ContactForm.StaleDisplayTimerResetsMidFlight`).

The four form fields carry the HTML `required` attribute, and the browser
refuses to submit a form with an empty required field. So `Submit` is
modelled as enabled only when no field is empty and no submission is in
flight. In any other state it is a no-op.

## Model

| member | source | states |
|---|---|---|
| Latch.Observe | src/components/AboutPage.tsx:9-15 | After a batch, the latch is set exactly when it was already set or some entry of the batch is intersecting |
| Latch.ObserveAll | src/components/ContactPage.tsx:16-24 | Over a lifetime of batches, the latch is set exactly when it started set or some batch held an intersecting entry |
| Latch.Sticky | src/components/ContactPage.tsx:19-22 | A set latch stays set, and a batch with no intersecting entry changes nothing |
| SectionTracker.Probe | src/App.tsx:14 | The probe point is equidistant from the viewport's top and bottom edges, and lies between them for a non-negative viewport height |
| SectionTracker.Scan | src/App.tsx:16-23 | With no containing section the previous index is kept; otherwise the result is a section that contains the probe, and no later section contains it |
| SectionTracker.HandleScroll | src/App.tsx:12-24 | The handler's loop over the sections, with probe `scrollY + innerHeight/2`, yields the last containing section, or the previous index when there is none |
| SectionTracker.ScanIsMatchOrPrevious | src/App.tsx:16-21 | The new index is either the previous one or a valid index whose section contains the probe |
| SectionTracker.HalfOpenBoundary | src/App.tsx:17-20 | A probe at a section's top selects it, and a probe at `top + height` lies outside it |
| SectionTracker.LaterOverlapWins | src/App.tsx:16-21 | When two sections both contain the probe, the earlier one is never chosen; the result is at or after the later one |
| SectionTracker.ScrollAllInRange | src/App.tsx:9-24 | Starting from a valid index such as the initial 0, any run of scroll events, each re-reading the layout and viewport, leaves a valid section index as long as the number of sections stays the same |
| SectionTracker.GapsKeepIndex | src/App.tsx:16-23 | A run of scroll events, each with its own layout and viewport, whose probes all fall in gaps of that layout leaves the index unchanged |
| SectionTracker.ExactlyOneHighlighted | src/components/Navigation.tsx:22-27 | On a page with one section per navigation item, after any run of scroll events (src/App.tsx:9-24) exactly one item is highlighted, namely the tracked one, and before the first event it is "home" |
| CandleQueue.Init | src/components/HomePage.tsx:15-16 | The queue starts empty with the id counter at 0 |
| CandleQueue.HandleClick | src/components/HomePage.tsx:38-64 | A click outside `[rect.top, rect.bottom]` changes nothing. Otherwise exactly one candle is appended after the unchanged old list, carrying the click's x/y and the counter's old value as id, with `Up` iff the squared distance is below 62500; the counter goes up by one |
| CandleQueue.Without | src/components/HomePage.tsx:67 | The filtered list holds exactly the candles of the input whose id differs |
| CandleQueue.HandleExpire | src/components/HomePage.tsx:66-68 | Expiry keeps the counter, removes exactly the candles with that id, and is a no-op for an id not in the list |
| CandleQueue.SquaredDistance | src/components/HomePage.tsx:46-51 | The squared distance to the reference point is never negative, and is 0 for a click on the reference point |
| CandleQueue.ClickRange | src/components/HomePage.tsx:42-44 | A click changes the queue iff its y lies in the closed range `[rect.top, rect.bottom]` (`InSection`); clicks exactly on either edge are accepted |
| CandleQueue.ClassifyByDistance | src/components/HomePage.tsx:46-54 | For the Euclidean distance d, `Classify` gives `Up` iff d < 250 |
| CandleQueue.ClassifyEdgeCases | src/components/HomePage.tsx:53-54 | A click at distance exactly 250 is `Down`; a click on the reference point is `Up` |
| CandleQueue.NoSuchIdKeeps | src/components/HomePage.tsx:67 | Filtering by an id that no candle has returns the list unchanged |
| CandleQueue.WithoutConcat | src/components/HomePage.tsx:67 | Filtering distributes over concatenation, so the survivors keep their relative order |
| CandleQueue.WithoutIdempotent | src/components/HomePage.tsx:66-68 | Filtering twice by the same id equals filtering once |
| CandleQueue.WithoutSorted | src/components/HomePage.tsx:67 | Filtering a list with strictly increasing ids keeps the ids strictly increasing |
| CandleQueue.WithoutRemovesOne | src/components/HomePage.tsx:66-68 | In a list with strictly increasing ids, expiring a present id removes exactly one candle |
| CandleQueue.InitValid | src/components/HomePage.tsx:15-16 | The initial queue satisfies the invariant: ids strictly increasing and below the counter |
| CandleQueue.ClickPreservesValid | src/components/HomePage.tsx:56-64 | A click keeps the invariant, and the id it hands out was not in use |
| CandleQueue.ExpirePreservesValid | src/components/HomePage.tsx:66-68 | Expiry keeps the invariant, removes exactly one candle for a present id, and expiring again changes nothing |
| CandleQueue.RunPreservesValid | src/components/HomePage.tsx:38-69 | Every queue reachable by clicks and expiries keeps unique, strictly increasing ids below the counter |
| CandleQueue.DrainAfterAllTimers | src/components/HomePage.tsx:66-68 | Once a timer has fired for every listed candle's id, the list is empty and the counter is unchanged |
| CandleQueue.QueueDrains | src/components/HomePage.tsx:66-68 | Firing the timers of the listed candles in list order empties the list |
| CandleQueue.ExpireUndoesClick | src/components/HomePage.tsx:56-68 | On a valid queue, the timer of a click's new candle restores the list from before the click (a rejected click leaves nothing to undo) |
| CandleQueue.CentreClickScenario | src/components/HomePage.tsx:46-68 | A click on the reference point adds one `Up` candle, and its timer restores the earlier list |
| HeroFade.HeroOpacity | src/components/HomePage.tsx:77 | Opacity is never negative, is at most 1 for `scrollY >= 0`, and is 0 exactly when `scrollY >= 500` |
| HeroFade.OpacityNonIncreasing | src/components/HomePage.tsx:77 | Opacity never rises as the scroll offset grows |
| ContactForm.Init | src/components/ContactPage.tsx:5-13 | Start: hidden, not submitting, status idle, all four fields empty, no display timer pending |
| ContactForm.Set | src/components/ContactPage.tsx:48-53 | The named field gets the new value; the other three keep theirs |
| ContactForm.HandleSubmit | src/components/ContactPage.tsx:35-37 | An enabled submit (not submitting, no empty required field) sets `isSubmitting` and leaves the status, fields and timers alone; otherwise nothing changes |
| ContactForm.HandleLatencyElapsed | src/components/ContactPage.tsx:39-43 | With a submission in flight: status success, not submitting, all four fields empty, one more display timer pending; otherwise no-op |
| ContactForm.HandleDisplayElapsed | src/components/ContactPage.tsx:45 | A pending display timer sets status idle whatever the status was, and touches nothing else |
| ContactForm.HandleChange | src/components/ContactPage.tsx:48-53 | Field `f` becomes `v`, the other fields are kept, and submission state and status are unchanged |
| ContactForm.HandleIntersect | src/components/ContactPage.tsx:16-24 | The section becomes visible iff it was or a batch entry intersects; nothing else changes |
| ContactForm.ButtonLabel | src/components/ContactPage.tsx:142 | The label is "Sending..." iff submitting, "Sent!" iff not submitting and status success, otherwise "Send Message" |
| ContactForm.DisabledButtonBlocksSubmit | src/components/ContactPage.tsx:138 | While the button is disabled (`ButtonDisabled`, i.e. submitting) a submit is a no-op, and an accepted submit disables it |
| ContactForm.SubmitGuard | src/components/ContactPage.tsx:95-138 | A submit changes the state iff the button is enabled and none of the four required fields is empty (`SubmitEnabled`, `AllFilled`) |
| ContactForm.StepPreservesInv | src/components/ContactPage.tsx:35-46 | Every event keeps the invariant: status never error, and a success status always has a display timer pending |
| ContactForm.NeverError | src/components/ContactPage.tsx:13-46 | From a state meeting the invariant, no sequence of events reaches status error |
| ContactForm.ReachableNeverError | src/components/ContactPage.tsx:13-46 | From the initial state no sequence of events reaches status error |
| ContactForm.NeverHidden | src/components/ContactPage.tsx:19-22 | No single event hides a visible section |
| ContactForm.VisibleStaysVisible | src/components/ContactPage.tsx:19-22 | Once visible, the section stays visible through any sequence of events |
| ContactForm.EditsDuringSubmissionDiscarded | src/components/ContactPage.tsx:41-53 | Edits during a submission do not end it, and the completion clears them |
| ContactForm.SubmissionCycle | src/components/ContactPage.tsx:35-46 | A filled-in idle form goes submitting ("Sending..."), then success with fields cleared ("Sent!"), then idle ("Send Message") |
| ContactForm.StaleDisplayTimerResetsMidFlight | src/components/ContactPage.tsx:45 | A second submission during the success window is accepted, and the first display timer sets idle while it is in flight |
| FeatureCards.Init | src/components/FeaturesPage.tsx:5-6 | Six visibility entries, all false, and no hovered card |
| FeatureCards.MarkCard | src/components/FeaturesPage.tsx:16-22 | Length kept; entry `index` becomes true iff it was true or some entry intersects; all other entries unchanged |
| FeatureCards.MarkCardMonotone | src/components/FeaturesPage.tsx:17-22 | A non-intersecting batch changes nothing, no true entry turns false, and repeating a batch is idempotent |
| FeatureCards.Step | src/components/FeaturesPage.tsx:11-31 | Every event keeps the array's length and every revealed card; hover events leave the array alone, observer batches leave the hover slot alone, and a batch for an index outside the array changes nothing |
| FeatureCards.RunKeepsRevealed | src/components/FeaturesPage.tsx:11-31 | Over any run of events the array keeps its length and revealed cards stay revealed |
| FeatureCards.PositionOf | src/components/FeaturesPage.tsx:144 | A card is left iff its index is 0 mod 3, center iff 1 mod 3, right iff 2 mod 3 |
| FeatureCards.AnimationDelay | src/components/FeaturesPage.tsx:145 | A card's delay is a multiple of 100 ms whose quotient by 100 is the card's index |
| FeatureCards.MouseEnter | src/components/FeaturesPage.tsx:157 | Entering a card highlights it and leaves the visibility array unchanged |
| FeatureCards.MouseLeave | src/components/FeaturesPage.tsx:158 | Leaving a card highlights no card and leaves the visibility array unchanged |
| FeatureCards.PositionCycles | src/components/FeaturesPage.tsx:144 | Index 3k is left, 3k+1 center, 3k+2 right, and the position repeats every three cards |
| FeatureCards.SixCardLayout | src/components/FeaturesPage.tsx:142-144 | The six cards are left, center, right, left, center, right |
| FeatureCards.DelaysStaggered | src/components/FeaturesPage.tsx:145 | Delays differ by 100 ms per index step, so a later card starts later; the sixth starts at 500 ms |
| FeatureCards.HoverHighlight | src/components/FeaturesPage.tsx:154-158 | At most one card is highlighted (`Highlighted`), the entered card is, and after mouse-leave none is |
| AboutSection.Init | src/components/AboutPage.tsx:5 | The section starts hidden |
| AboutSection.HandleEntries | src/components/AboutPage.tsx:9-15 | After a batch the section is visible iff it was or some entry intersects |
| AboutSection.HandleAll | src/components/AboutPage.tsx:9-15 | Over any sequence of batches the section is visible iff it started visible or some batch had an intersecting entry |
| AboutSection.StatDelays | src/components/AboutPage.tsx:27-31 | There is one delay per stat tile, three in all |
| AboutSection.StatDelayValues | src/components/AboutPage.tsx:84 | Stat i's transition delay is `i * 150` ms: 0, 150 and 300 |

## Left out

- Event wiring: `addEventListener`/`removeEventListener`, effect cleanup, refs and observer `disconnect`. Each handler is a pure function of its inputs.
- DOM measurements: `offsetTop`, `offsetHeight` and `getBoundingClientRect` become plain parameters (`Section`, `Rect`). The three rect fields are independent inputs, as the handler reads them.
- The click handler's early return when the section ref is unset (src/components/HomePage.tsx:39). The listener is registered after mount, when the ref is set.
- `IntersectionObserver` geometry and its 0.2/0.3 thresholds. Only the `isIntersecting` flag that reaches the callback is modelled.
- Wall-clock time: `setTimeout`, `await`, `Date.now` and the candle `timestamp`. Timers become explicit events. The durations 1500 and 3000 ms are constants that label those events. Timer ordering is not modelled beyond a count of pending display timers.
- React state batching and re-rendering. Every state update is applied at once, in handler order.
- Floating point: JavaScript doubles are modelled as exact `real`s, and ids as unbounded `nat`s. The id counter would lose precision only past 2^53 clicks.
- Mouse-move tracking and the parallax transforms (src/components/HomePage.tsx:20-22, 75-76), the 64-cell grid's animation delays, CSS keyframes and the SVG arrows. They are presentation only.
- The home section's `scrollY` state (src/components/HomePage.tsx:24-26). It is the parameter of `HeroFade.HeroOpacity`.
- CandleQueue.SquaredDistance: states non-negativity and the zero at the reference point, but not the converse (zero only at the reference point), because the solver does not derive it for real squares; `ClassifyEdgeCases` covers the reference point directly.
- Email syntax validation by the `type="email"` input. Only the `required` (non-empty) check gates `Submit`.
- `scrollIntoView` navigation in src/components/Navigation.tsx. It is a browser call. Only its highlight test is modelled.
- Static content: contact info, feature copy, office hours, stat values and icons.
- Batches for a card index outside the visibility array are ignored by `FeatureCards.Step`. Observers exist only for the six rendered cards, so such a batch cannot arrive.
