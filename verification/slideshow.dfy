/** The slideshow's transition state machine (script.js:11-103).

    The page state is reduced to flags: each slide has its `active` class and
    its `aria-hidden` attribute, each dot its `data-index` and `active` class.
    Every accepted `goTo` creates a fresh `done` closure with its own
    `finished` latch; the model keeps all of them, in order, in `started`, so a
    completion event names the transition it belongs to by its position.
 */
module Slideshow {

  /** Which side the incoming slide enters from. */
  datatype Direction = Next | Prev

  /** One slide element: its `active` class and its `aria-hidden` attribute. */
  datatype Slide = Slide(active: bool, ariaHidden: bool)

  /** One dot button: the slide index stored in `data-index`, and its `active` class. */
  datatype Dot = Dot(index: int, active: bool)

  /** A transition begun by `goTo`: outgoing and incoming slide, direction,
      and the one-shot latch of its `done` closure. */
  datatype Transition = Transition(from: int, to: int, dir: Direction, finished: bool)

  /** The controller's state: slides, dots, current index, the animation lock
      and every transition started so far (the newest last). */
  datatype State = State(
    slides: seq<Slide>,
    dots: seq<Dot>,
    current: int,
    isAnimating: bool,
    started: seq<Transition>)

  // ---------------------------------------------------------------------
  // Initialisation
  // ---------------------------------------------------------------------

  /** The slide flags set by the initialisation loop for the first k slides. */
  function InitSlides(k: nat): (r: seq<Slide>)
    ensures |r| == k
    ensures forall i :: 0 <= i < k ==> r[i].active == (i == 0)
    ensures forall i :: 0 <= i < k ==> r[i].ariaHidden == (i != 0)
  {
    if k == 0 then [] else InitSlides(k - 1) + [Slide(k - 1 == 0, k - 1 != 0)]
  }

  /** The dots created by the initialisation loop for the first k slides. */
  function InitDots(k: nat): (r: seq<Dot>)
    ensures |r| == k
    ensures forall i :: 0 <= i < k ==> r[i].index == i
    ensures forall i :: 0 <= i < k ==> r[i].active == (i == 0)
  {
    if k == 0 then [] else InitDots(k - 1) + [Dot(k - 1, k - 1 == 0)]
  }

  /** The state after the page has loaded with n slides. */
  function Init(n: nat): (s: State)
    ensures |s.slides| == n && |s.dots| == n
    ensures s.current == 0 && !s.isAnimating && s.started == []
    ensures n >= 1 ==> Shows(s, 0)
  {
    State(InitSlides(n), InitDots(n), 0, false, [])
  }

  // ---------------------------------------------------------------------
  // The rules goTo applies
  // ---------------------------------------------------------------------

  /** The target's normalisation: first a negative target becomes n - 1, then
      a target at or past n becomes 0. This is not arithmetic modulo n. */
  function Wrap(target: int, n: nat): (r: int)
    ensures target < 0 ==> r == n - 1
    ensures target >= n ==> r == 0
    ensures 0 <= target < n ==> r == target
    ensures n >= 1 ==> 0 <= r < n
  {
    var t := if target < 0 then n - 1 else target;
    if t >= n then 0 else t
  }

  /** The direction rule: forward when the target is above the current index,
      or when leaving the last slide for slide 0. */
  function DirectionOf(current: int, target: int, n: int): (d: Direction)
    ensures target > current ==> d == Next
    ensures target <= current ==> (d == Next <==> current == n - 1 && target == 0)
  {
    if target > current || (current == n - 1 && target == 0) then Next else Prev
  }

  /** `updateDots`: a dot is active exactly when its index is idx. */
  function UpdateDots(dots: seq<Dot>, idx: int): (r: seq<Dot>)
    ensures |r| == |dots|
    ensures forall i :: 0 <= i < |dots| ==> r[i].index == dots[i].index
    ensures forall i :: 0 <= i < |dots| ==> (r[i].active <==> dots[i].index == idx)
  {
    if dots == [] then []
    else [Dot(dots[0].index, dots[0].index == idx)] + UpdateDots(dots[1..], idx)
  }

  // ---------------------------------------------------------------------
  // goTo and done
  // ---------------------------------------------------------------------

  /** Every index the state records names an existing slide. */
  predicate InRange(s: State)
  {
    && (|s.slides| > 0 ==> 0 <= s.current < |s.slides|)
    && forall k :: 0 <= k < |s.started| ==>
         0 <= s.started[k].from < |s.slides| && 0 <= s.started[k].to < |s.slides|
  }

  /** `goTo(target)`. A request while the lock is held, or whose raw target
      equals the current index, is dropped. Otherwise the lock is set and the
      transition is recorded; nothing else changes until completion. With no
      slides at all the handler throws right after setting the lock (the
      incoming slide is undefined), so only the lock changes. */
  function GoTo(s: State, target: int): (r: State)
    requires InRange(s)
    ensures InRange(r)
    ensures s.isAnimating || target == s.current ==> r == s
    ensures !s.isAnimating && target != s.current ==>
      && r.isAnimating
      && r.slides == s.slides && r.dots == s.dots && r.current == s.current
    ensures !s.isAnimating && target != s.current && |s.slides| > 0 ==>
      var to := Wrap(target, |s.slides|);
      r.started == s.started + [Transition(s.current, to, DirectionOf(s.current, to, |s.slides|), false)]
    ensures |s.slides| == 0 ==> r.started == s.started
  {
    if s.isAnimating || target == s.current then s
    else
      var n := |s.slides|;
      var to := Wrap(target, n);
      if n == 0 then s.(isAnimating := true)
      else
        assert 0 <= to < n by { WrapInRange(target, n); }
        s.(isAnimating := true,
           started := s.started + [Transition(s.current, to, DirectionOf(s.current, to, n), false)])
  }

  /** Whether completion event k would still run the body of its `done`. */
  predicate Pending(s: State, k: nat)
  {
    k < |s.started| && !s.started[k].finished
  }

  /** `done` of the k-th transition: a no-op once its latch is set (or for a
      transition never started); otherwise it sets the latch, moves the
      `active` class and `aria-hidden` from the outgoing to the incoming slide,
      makes the incoming slide current, updates the dots and releases the lock. */
  function Done(s: State, k: nat): (r: State)
    requires InRange(s)
    ensures InRange(r)
    ensures !Pending(s, k) ==> r == s
    ensures Pending(s, k) ==>
      var t := s.started[k];
      && r.current == t.to && !r.isAnimating
      && |r.slides| == |s.slides| && r.slides[t.to] == Slide(true, false)
      && (t.from != t.to ==> r.slides[t.from] == Slide(false, true))
      && (forall i :: 0 <= i < |s.slides| && i != t.from && i != t.to ==> r.slides[i] == s.slides[i])
      && r.dots == UpdateDots(s.dots, t.to)
      && r.started == s.started[k := t.(finished := true)]
  {
    if !Pending(s, k) then s
    else
      var t := s.started[k];
      var sl := s.slides;
      var sl := sl[t.from := sl[t.from].(active := false)];
      var sl := sl[t.to := sl[t.to].(active := true)];
      var sl := sl[t.from := sl[t.from].(ariaHidden := true)];
      var sl := sl[t.to := sl[t.to].(ariaHidden := false)];
      State(sl, UpdateDots(s.dots, t.to), t.to, false, s.started[k := t.(finished := true)])
  }

  // ---------------------------------------------------------------------
  // The invariant
  // ---------------------------------------------------------------------

  /** Slides, their aria-hidden attributes and the dots all single out slide k. */
  predicate Shows(s: State, k: int)
  {
    && |s.dots| == |s.slides| && 0 <= k < |s.slides|
    && (forall i :: 0 <= i < |s.slides| ==> s.slides[i] == Slide(i == k, i != k))
    && (forall i :: 0 <= i < |s.dots| ==> s.dots[i] == Dot(i, i == k))
  }

  /** A transition is in flight: the newest one has not finished. */
  predicate InFlight(s: State)
  {
    |s.started| > 0 && !s.started[|s.started| - 1].finished
  }

  /** At most one transition in flight, the lock held exactly while one is,
      and the one in flight leaves the current slide. */
  predicate OneInFlight(s: State)
  {
    && (forall k :: 0 <= k < |s.started| - 1 ==> s.started[k].finished)
    && (s.isAnimating <==> InFlight(s))
    && (InFlight(s) ==> s.started[|s.started| - 1].from == s.current)
  }

  predicate Valid(s: State)
  {
    |s.slides| >= 1 && InRange(s) && Shows(s, s.current) && OneInFlight(s)
  }

  // ---------------------------------------------------------------------
  // Lemmas
  // ---------------------------------------------------------------------

  lemma WrapInRange(target: int, n: int)
    requires n >= 1
    ensures 0 <= Wrap(target, n) < n
  {
  }

  /** The wrap rule in full: negative targets go to the last slide, targets
      past the end to slide 0, the rest stay. */
  lemma WrapCases(target: int, n: int)
    requires n >= 1
    ensures target < 0 ==> Wrap(target, n) == n - 1
    ensures target >= n ==> Wrap(target, n) == 0
    ensures 0 <= target < n ==> Wrap(target, n) == target
    ensures 0 <= Wrap(target, n) < n
  {
  }

  /** For the targets the buttons, keys and swipes produce (current ± 1 with
      current in range) the wrap agrees with arithmetic modulo n. */
  lemma WrapIsModuloForNeighbours(current: int, n: int)
    requires 0 <= current < n
    ensures Wrap(current + 1, n) == (current + 1) % n
    ensures Wrap(current - 1, n) == (current - 1) % n
  {
    if current + 1 == n {
      assert (current + 1) % n == 0;
    }
    if current == 0 {
      assert (-1) % n == n - 1;
    }
  }

  /** The wrap agrees with arithmetic modulo n for every target from -1 to
      n, which covers every target the buttons, keys, swipes and dots
      produce. */
  lemma WrapIsModuloNearRange(target: int, n: nat)
    requires n >= 1 && -1 <= target <= n
    ensures Wrap(target, n) == target % n
  {
    if target == -1 {
      assert (-1) % n == n - 1;
    } else if target == n {
      assert n % n == 0;
    }
  }

  /** Further away the wrap is not modular: with 5 slides, -2 goes to 4, not 3. */
  lemma WrapIsNotModulo()
    ensures Wrap(-2, 5) == 4 && (-2) % 5 == 3
    ensures Wrap(7, 5) == 0 && 7 % 5 == 2
  {
  }

  /** Both wraparounds animate forward: last to first via "next", and first
      to last via "prev". */
  lemma WraparoundsGoForward(n: int)
    requires n >= 2
    ensures DirectionOf(n - 1, Wrap(n, n), n) == Next
    ensures DirectionOf(0, Wrap(-1, n), n) == Next
  {
  }

  /** "Next" always animates forward. "Prev" animates backward except from
      the first slide, and except with exactly two slides, where going from
      slide 1 to slide 0 is also leaving the last slide for slide 0. */
  lemma NeighbourDirections(current: int, n: int)
    requires 0 <= current < n
    ensures DirectionOf(current, Wrap(current + 1, n), n) == Next
    ensures DirectionOf(current, Wrap(current - 1, n), n) == Prev <==> current > 0 && !(n == 2 && current == 1)
  {
  }

  /** The page as loaded: only slide 0 and dot 0 are active, slide 0 alone is
      visible to assistive technology, dot i carries index i, and no
      transition is in flight. */
  lemma InitValid(n: nat)
    requires n >= 1
    ensures Valid(Init(n))
    ensures Shows(Init(n), 0)
  {
    var s := Init(n);
    forall i | 0 <= i < n
      ensures s.slides[i] == Slide(i == 0, i != 0) && s.dots[i] == Dot(i, i == 0)
    {
    }
  }

  /** A request while the lock is held changes nothing, whatever the target:
      requests are dropped, never queued. */
  lemma LockedDropsRequest(s: State, target: int)
    requires InRange(s) && s.isAnimating
    ensures GoTo(s, target) == s
  {
  }

  /** An accepted request keeps the invariant: the display still shows the
      current slide, the new transition is the one in flight. */
  lemma GoToPreservesValid(s: State, target: int)
    requires Valid(s)
    ensures Valid(GoTo(s, target))
    ensures !s.isAnimating && target != s.current ==>
      InFlight(GoTo(s, target)) && GoTo(s, target).started[|s.started|].to == Wrap(target, |s.slides|)
  {
    var r := GoTo(s, target);
    if !s.isAnimating && target != s.current {
      assert r.started[|r.started| - 1].from == s.current;
      forall k | 0 <= k < |r.started| - 1 ensures r.started[k].finished {
        assert r.started[k] == s.started[k];
      }
    }
  }

  /** Completing a transition keeps the invariant and leaves the incoming
      slide shown; a completion that is not pending changes nothing. */
  lemma DonePreservesValid(s: State, k: nat)
    requires Valid(s)
    ensures Valid(Done(s, k))
    ensures Pending(s, k) ==> Shows(Done(s, k), s.started[k].to) && !InFlight(Done(s, k))
  {
    if Pending(s, k) {
      var t := s.started[k];
      var r := Done(s, k);
      assert k == |s.started| - 1;
      assert t.from == s.current;
      forall i | 0 <= i < |r.slides| ensures r.slides[i] == Slide(i == t.to, i != t.to) {
        if i != t.from && i != t.to {
          assert r.slides[i] == s.slides[i];
        }
      }
      forall i | 0 <= i < |r.dots| ensures r.dots[i] == Dot(i, i == t.to) {
        assert s.dots[i].index == i;
      }
      forall j | 0 <= j < |r.started| - 1 ensures r.started[j].finished {
        assert r.started[j] == s.started[j];
      }
    }
  }

  /** Completion is idempotent: the transition-end event and the timeout may
      both deliver it, and the second delivery changes nothing. */
  lemma DoneIdempotent(s: State, k: nat)
    requires InRange(s)
    ensures Done(Done(s, k), k) == Done(s, k)
  {
    if Pending(s, k) {
      assert Done(s, k).started[k].finished;
    }
  }

  /** An accepted request followed by its completion lands on the wrapped
      target, with every flag pointing at it and the lock released. */
  lemma NavigateThenComplete(s: State, target: int)
    requires Valid(s) && !s.isAnimating && target != s.current
    ensures var r := Done(GoTo(s, target), |s.started|);
      && r.current == Wrap(target, |s.slides|) && Shows(r, r.current)
      && !r.isAnimating && Valid(r)
  {
    GoToPreservesValid(s, target);
    DonePreservesValid(GoTo(s, target), |s.started|);
  }

  // ---------------------------------------------------------------------
  // Counting: "exactly one"
  // ---------------------------------------------------------------------

  /** The number of true flags. */
  function Count(bs: seq<bool>): nat
  {
    if bs == [] then 0 else (if bs[0] then 1 else 0) + Count(bs[1..])
  }

  function ActiveFlags(s: State): seq<bool>
  {
    seq(|s.slides|, i requires 0 <= i < |s.slides| => s.slides[i].active)
  }

  function VisibleFlags(s: State): seq<bool>
  {
    seq(|s.slides|, i requires 0 <= i < |s.slides| => !s.slides[i].ariaHidden)
  }

  function DotFlags(s: State): seq<bool>
  {
    seq(|s.dots|, i requires 0 <= i < |s.dots| => s.dots[i].active)
  }

  lemma {:induction false} CountNone(bs: seq<bool>)
    requires forall i :: 0 <= i < |bs| ==> !bs[i]
    ensures Count(bs) == 0
  {
    if bs != [] {
      CountNone(bs[1..]);
    }
  }

  /** A flag sequence true at exactly one position counts one. */
  lemma {:induction false} CountOneHot(bs: seq<bool>, k: int)
    requires 0 <= k < |bs|
    requires forall i :: 0 <= i < |bs| ==> (bs[i] <==> i == k)
    ensures Count(bs) == 1
  {
    if k == 0 {
      CountNone(bs[1..]);
    } else {
      CountOneHot(bs[1..], k - 1);
    }
  }

  /** In every valid state exactly one slide is active, exactly one is
      visible to assistive technology, and exactly one dot is active. */
  lemma ExactlyOneActive(s: State)
    requires Valid(s)
    ensures Count(ActiveFlags(s)) == 1
    ensures Count(VisibleFlags(s)) == 1
    ensures Count(DotFlags(s)) == 1
  {
    CountOneHot(ActiveFlags(s), s.current);
    CountOneHot(VisibleFlags(s), s.current);
    CountOneHot(DotFlags(s), s.current);
  }
}
