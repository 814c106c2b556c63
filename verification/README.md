# Slideshow transition state machine, in Dafny

This project models the logic of the carousel script `script.js`. The page has
a fixed list of slides and one indicator dot per slide. Buttons, dots, arrow
keys and swipes all funnel into one navigation operation, `goTo`. While a
slide transition animates, a lock makes `goTo` drop every further request. A
transition completes when its `done` callback runs. Both the `transitionend`
event and a fallback timer call it, and a one-shot `finished` latch makes the
second call do nothing.

Three modules, one per part of the script:

- `Slideshow` (`slideshow.dfy`): the state, the initialisation loop,
  `updateDots`, `goTo` (guard, wrap, direction, lock) and `done`. It also
  holds the invariant `Valid` and the lemmas that `goTo` and `done` keep it.
  The state is an immutable record. Each slide is a pair of flags: its
  `active` class and its `aria-hidden` attribute. Each dot is its
  `data-index` and its `active` class. Every accepted `goTo` creates a fresh
  `done` closure with its own latch. The model therefore keeps every started
  transition, in order, as (from, to, direction, finished). A completion
  event names its transition by that position. This lets the model deliver a
  stale timer from an earlier transition while a later one is in flight.
- `Swipe` (`swipe.dfy`): the touch tracker (`touchstart`, `touchmove`) and
  the `touchend` decision. Coordinates are integers.
- `Controller` (`controller.dfy`): the input adapters, one step per event
  (`Step`) and runs over arbitrary event sequences (`Run`). Completion events
  may arrive any number of times, in any order, at any point.

Behaviour modelled as written:

- The `target == current` check comes before wrapping. With one slide,
  "next" asks for slide 1, which wraps to slide 0, so a self-transition from
  slide 0 to slide 0 starts. The updates in `done` run in source order, so
  slide 0 ends up active and visible. Because of this, "exactly one active
  slide" holds for every slide count of at least one and every integer
  target (`GoToPreservesValid`, `DonePreservesValid` and
  `ExactlyOneActive`). Over the targets the input sources produce, it holds
  after any sequence of events (`AlwaysExactlyOne`).
- Wrapping is not modular. Any negative target becomes `n-1` and any target
  of `n` or more becomes `0`. It agrees with modulo `n` for targets from -1
  to `n`, which covers every target the input sources produce
  (`WrapIsModuloNearRange`). Further out it does not (`WrapIsNotModulo`).
- The direction rule makes both wraparounds animate forward. With exactly
  two slides, "prev" from slide 1 to slide 0 also animates forward, because
  it leaves the last slide for slide 0 (`NeighbourDirections`).
- With no slides, a request for any index other than 0 sets the lock and
  then throws, because the incoming slide is undefined at script.js:52.
  Nothing can release that lock afterwards (`EmptyShowLocksOnNext`,
  `EmptyShowStaysLocked`).
- A multi-finger `touchstart` leaves the tracker untouched, including a
  `moved` flag left over from the previous gesture. A `touchend` without a
  reported end point gives zero displacement and never navigates.

A literal `goTo(-1)` from slide 1 wraps to the last slide, not to slide 0.
Stepping back one slide is what the "prev" button does, by asking for
`current - 1`. The walk-through lemmas (`ScenarioNext` to
`ScenarioStaleTimeout`) therefore navigate with the buttons.

## Model

| member | source | states |
|---|---|---|
| Slideshow.InitSlides | script.js:16-24 | after the initialisation loop, on markup where no slide already carries the `active` class, only slide 0 is active and every slide except slide 0 has aria-hidden set |
| Slideshow.InitDots | script.js:25-34 | one dot is created per slide, dot i carries index i, and only dot 0 is active; these are all the dots when the page has no other `.dot` element |
| Slideshow.Init | script.js:11-34 | the loaded state has n slides and n dots, current 0, no lock and no transition, and for n >= 1 every slide, visibility and dot flag singles out slide 0 |
| Slideshow.InitValid | script.js:11-32 | the loaded page satisfies the invariant and singles out slide 0: slide, visibility and dot flags all at 0, with no lock and no transition |
| Slideshow.UpdateDots | script.js:36-38 | each dot keeps its index and is active exactly when its index equals the requested one |
| Slideshow.GoTo | script.js:41-49 | a request while locked, or with the raw target equal to current, changes nothing; otherwise the lock is set and the transition (current, wrapped target, direction) is recorded, with slides, dots and current unchanged; with no slides only the lock changes |
| Slideshow.Done | script.js:72-96 | a completion whose latch is set changes nothing; otherwise it sets the latch, makes the incoming slide active and visible, makes the outgoing one inactive and hidden when it is a different slide, leaves other slides alone, sets current to the target, updates the dots and releases the lock |
| Slideshow.Wrap | script.js:43-44 | every negative target becomes n-1, every target of n or more becomes 0, targets in [0, n) are kept, and for n >= 1 the result lies in [0, n) |
| Slideshow.DirectionOf | script.js:49 | a target above current is forward; a target at or below current is forward exactly when it leaves the last slide for slide 0 |
| Slideshow.WrapInRange | script.js:43-44 | the wrapped target lies in [0, n) for every n of at least 1 |
| Slideshow.WrapCases | script.js:43-44 | negative targets go to n-1, targets of n or more go to 0, all others are kept |
| Slideshow.WrapIsModuloForNeighbours | script.js:43-44 | for current ± 1 the wrap equals arithmetic modulo n |
| Slideshow.WrapIsModuloNearRange | script.js:43-44 | for every target from -1 to n the wrap equals arithmetic modulo n, which covers the button, key, swipe and dot targets |
| Slideshow.WrapIsNotModulo | script.js:43-44 | further out it does not: with 5 slides, -2 goes to 4 and 7 goes to 0 |
| Slideshow.WraparoundsGoForward | script.js:49 | last-to-first via "next" and first-to-last via "prev" both animate forward |
| Slideshow.NeighbourDirections | script.js:49 | "next" always animates forward; "prev" animates backward exactly when current > 0, except from slide 1 of a two-slide show |
| Slideshow.LockedDropsRequest | script.js:42 | while the lock is held every request leaves the whole state unchanged |
| Slideshow.GoToPreservesValid | script.js:41-49 | an accepted request keeps the invariant and makes the new transition, to the wrapped target, the only one in flight |
| Slideshow.DonePreservesValid | script.js:72-96 | completion keeps the invariant, ends the transition in flight and leaves every flag pointing at the incoming slide |
| Slideshow.DoneIdempotent | script.js:72-75 | a second completion of the same transition changes nothing |
| Slideshow.NavigateThenComplete | script.js:41-96 | an accepted request and its completion land on the wrapped target, with all flags pointing at it and the lock released |
| Slideshow.ExactlyOneActive | script.js:77-94 | in every valid state exactly one slide is active, one is visible to assistive technology and one dot is active |
| Swipe.Classify | script.js:123-144 | a swipe asks for the next slide iff a move happened, dx < 0, abs(dx) > 40 and abs(dx) > dy; for the previous slide iff the same holds with dx > 0; otherwise it asks for nothing |
| Swipe.Begin | script.js:125-130 | a single-finger touch records its start and clears the moved flag; any other touch count changes nothing |
| Swipe.Move | script.js:132-134 | a move sets the moved flag and keeps the start point |
| Swipe.Release | script.js:136-145 | without a move, or without an end point, nothing is asked for; otherwise the decision uses the horizontal displacement and the absolute vertical one |
| Swipe.ClassifyMirror | script.js:141-144 | reflecting a swipe horizontally swaps next and prev |
| Swipe.ClassifyExamples | script.js:123-144 | 30 px and exactly 40 px do nothing; 50 px across and 10 px down navigates in the horizontal direction; a diagonal or an unmoved touch does nothing |
| Swipe.SwipeLeftAsksNext | script.js:125-145 | one finger moved 50 px to the left and lifted asks for the next slide |
| Swipe.TapAsksNothing | script.js:125-145 | a fresh single-finger touch lifted without a move asks for nothing |
| Controller.Load | script.js:11-34 | the loaded page has n slides and n dots, current 0, no lock, no transition and no moved touch; with at least one slide it satisfies the invariant with slide 0 shown |
| Controller.Step | script.js:99-145 | one event keeps every recorded index naming a real slide and keeps the slide count; what each event does is stated by Controller.AdaptersFunnelIntoGoTo (navigation) and Controller.TouchAndCompletionWiring (touch tracking and completion) |
| Controller.Run | script.js:105-145 | a sequence of events keeps every recorded index in range and the slide count; the invariant over any sequence is stated by Controller.RunPreservesValid |
| Controller.AdaptersFunnelIntoGoTo | script.js:105-145 | buttons and arrow keys ask goTo for current ± 1, a dot asks for its own slide, a swipe for current ± 1 by its classification, and other keys or gestures do nothing |
| Controller.TouchAndCompletionWiring | script.js:99-134 | touch start and touch move only update the touch tracker and leave the slideshow unchanged; the transition-end event and the timeout both apply `done` of the transition they name |
| Controller.StepPreservesValid | script.js:105-145 | every single event keeps the invariant |
| Controller.RunPreservesValid | script.js:41-145 | every event sequence keeps the invariant: flags at current, at most one transition in flight, lock held exactly while one is |
| Controller.AlwaysExactlyOne | script.js:16-145 | from the loaded page with at least one slide, after any events, exactly one slide is active, one is visible and one dot is active, and current is in range |
| Controller.LockedIgnoresNavigation | script.js:42 | while the lock is held, any events other than completions leave the slideshow state unchanged: requests are dropped, not queued |
| Controller.EmptyShowLocksOnNext | script.js:42-52 | with no slides, "next" sets the lock and records no transition |
| Controller.EmptyShowStaysLocked | script.js:42-52 | a slideshow with no slides whose lock is set never changes again |
| Controller.BothSignalsCompleteOnce | script.js:99-102 | the transition-end event followed by the timeout, or the reverse, leaves the page exactly as one completion does |
| Controller.DotClickShowsDot | script.js:110-113 | a dot click on an idle page, once completed, shows that dot's slide |
| Controller.ScenarioNext | script.js:107 | with any n >= 2 slides, "next" then completion ends on slide 1 with dot 1 active and slide 0 inactive and hidden |
| Controller.ScenarioPrev | script.js:106 | then "prev" and its completion return to slide 0 |
| Controller.ScenarioWrap | script.js:43-49 | then "prev" from slide 0 starts a forward transition to the last slide |
| Controller.ScenarioStaleTimeout | script.js:72-75 | a late timeout of the first transition, during the third, changes nothing |

## Left out

- Markup the script does not set up itself is assumed. Slides start without the `active` class, and the only `.dot` elements are the ones the loop creates. The loop at script.js:16-32 adds `active` to slide 0 but never removes it from other slides. The query at script.js:34 collects every `.dot` in the document. With other markup, the "only slide 0 active" and "one dot per slide" facts of `InitSlides`, `InitDots` and `Init` need not hold.
- Inline styles (`transform`, `opacity`, `zIndex`, `transition`) and the forced reflow (script.js:21-22, 52-69, 78-88) are presentational. The model keeps the direction that chooses them but no style values. The `preparing` class (script.js:55, 84) is left out for the same reason.
- The `aria-label` text of the dots (script.js:28) and element creation and queries are not modelled. Slides and dots are flag sequences.
- Timing is not modelled: the 600 ms duration, the 80 ms fallback margin and listener scheduling (script.js:13, 99-102). Completion is an external event that may arrive at any time, any number of times. `{ once: true }` on the transition-end listener is not needed, because a repeated delivery is already a no-op.
- Event-listener registration, `preventDefault` and the passive flags are not modelled. Touch coordinates are integers, not floating-point pixels.
- The case where `transitionend` fires early, for example bubbling from a child element, is covered only as "completion may arrive at any time". The model does not distinguish which property finished.
