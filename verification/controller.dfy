/** The event wiring of script.js:105-145: buttons, dots, arrow keys and the
    swipe recogniser all funnel into `goTo`; the transition-end event and the
    fallback timer of each transition both deliver its completion.
 */
module Controller {
  import opened Slideshow
  import Swipe

  datatype Key = ArrowRight | ArrowLeft | OtherKey

  /** One event the page can receive. Completion events name the transition
      whose `done` they call, by its position among the transitions started. */
  datatype Input =
    | PrevClick
    | NextClick
    | DotClick(dot: nat)
    | KeyDown(key: Key)
    | TouchStart(touches: nat, x: int, y: int)
    | TouchMove
    | TouchEnd(end: Swipe.EndPoint)
    | TransitionEnd(transition: nat)
    | Timeout(transition: nat)

  datatype Page = Page(show: State, touch: Swipe.Tracker)

  /** The page just after loading with n slides: with at least one slide it
      satisfies the invariant with slide 0 shown; nothing is animating, no
      transition has started and no touch has moved. */
  function Load(n: nat): (p: Page)
    ensures p.show == Init(n) && p.touch == Swipe.Fresh
    ensures |p.show.slides| == n && |p.show.dots| == n
    ensures n >= 1 ==> Valid(p.show) && Shows(p.show, 0)
    ensures p.show.current == 0 && !p.show.isAnimating && p.show.started == []
    ensures !p.touch.moved
  {
    if n >= 1 then
      InitValid(n);
      Page(Init(n), Swipe.Fresh)
    else
      Page(Init(n), Swipe.Fresh)
  }

  function Navigate(p: Page, target: int): (r: Page)
    requires InRange(p.show)
    ensures InRange(r.show) && r.touch == p.touch && |r.show.slides| == |p.show.slides|
  {
    p.(show := GoTo(p.show, target))
  }

  /** The page's response to one event. */
  function Step(p: Page, e: Input): (r: Page)
    requires InRange(p.show)
    ensures InRange(r.show) && |r.show.slides| == |p.show.slides|
  {
    match e
    case PrevClick => Navigate(p, p.show.current - 1)
    case NextClick => Navigate(p, p.show.current + 1)
    case DotClick(d) =>
      if d < |p.show.dots| then Navigate(p, p.show.dots[d].index) else p
    case KeyDown(k) =>
      if k == ArrowRight then Navigate(p, p.show.current + 1)
      else if k == ArrowLeft then Navigate(p, p.show.current - 1)
      else p
    case TouchStart(n, x, y) => p.(touch := Swipe.Begin(p.touch, n, x, y))
    case TouchMove => p.(touch := Swipe.Move(p.touch))
    case TouchEnd(end) =>
      (match Swipe.Release(p.touch, end)
       case ToNext => Navigate(p, p.show.current + 1)
       case ToPrev => Navigate(p, p.show.current - 1)
       case NoGesture => p)
    case TransitionEnd(k) => p.(show := Done(p.show, k))
    case Timeout(k) => p.(show := Done(p.show, k))
  }

  /** The page after a sequence of events, in order. */
  function Run(p: Page, es: seq<Input>): (r: Page)
    requires InRange(p.show)
    ensures InRange(r.show) && |r.show.slides| == |p.show.slides|
    decreases |es|
  {
    if es == [] then p else Run(Step(p, es[0]), es[1..])
  }

  predicate IsCompletion(e: Input)
  {
    e.TransitionEnd? || e.Timeout?
  }

  // ---------------------------------------------------------------------
  // Lemmas
  // ---------------------------------------------------------------------

  /** Every input source asks `goTo` for the current index plus or minus
      one, or for the clicked dot's own slide; nothing else navigates. */
  lemma AdaptersFunnelIntoGoTo(p: Page, d: nat, end: Swipe.EndPoint)
    requires Valid(p.show)
    ensures Step(p, PrevClick).show == GoTo(p.show, p.show.current - 1)
    ensures Step(p, NextClick).show == GoTo(p.show, p.show.current + 1)
    ensures Step(p, KeyDown(ArrowLeft)).show == GoTo(p.show, p.show.current - 1)
    ensures Step(p, KeyDown(ArrowRight)).show == GoTo(p.show, p.show.current + 1)
    ensures Step(p, KeyDown(OtherKey)) == p
    ensures d < |p.show.slides| ==> Step(p, DotClick(d)).show == GoTo(p.show, d)
    ensures d >= |p.show.slides| ==> Step(p, DotClick(d)) == p
    ensures Swipe.Release(p.touch, end) == Swipe.ToNext ==>
      Step(p, TouchEnd(end)).show == GoTo(p.show, p.show.current + 1)
    ensures Swipe.Release(p.touch, end) == Swipe.ToPrev ==>
      Step(p, TouchEnd(end)).show == GoTo(p.show, p.show.current - 1)
    ensures Swipe.Release(p.touch, end) == Swipe.NoGesture ==> Step(p, TouchEnd(end)) == p
  {
    if d < |p.show.slides| {
      assert p.show.dots[d].index == d;
    }
  }

  /** The remaining events: touch start and touch move only update the
      touch tracker and leave the slideshow alone, and the transition-end
      event and the timeout both run `done` of the transition they name. */
  lemma TouchAndCompletionWiring(p: Page, touches: nat, x: int, y: int, k: nat)
    requires InRange(p.show)
    ensures Step(p, TouchStart(touches, x, y)) == p.(touch := Swipe.Begin(p.touch, touches, x, y))
    ensures Step(p, TouchMove) == p.(touch := Swipe.Move(p.touch))
    ensures Step(p, TransitionEnd(k)) == p.(show := Done(p.show, k))
    ensures Step(p, Timeout(k)) == p.(show := Done(p.show, k))
  {
  }

  /** Every event keeps the invariant. */
  lemma StepPreservesValid(p: Page, e: Input)
    requires Valid(p.show)
    ensures Valid(Step(p, e).show)
  {
    match e
    case PrevClick => GoToPreservesValid(p.show, p.show.current - 1);
    case NextClick => GoToPreservesValid(p.show, p.show.current + 1);
    case DotClick(d) =>
      if d < |p.show.dots| {
        GoToPreservesValid(p.show, p.show.dots[d].index);
      }
    case KeyDown(k) =>
      GoToPreservesValid(p.show, p.show.current + 1);
      GoToPreservesValid(p.show, p.show.current - 1);
    case TouchStart(_, _, _) =>
    case TouchMove =>
    case TouchEnd(_) =>
      GoToPreservesValid(p.show, p.show.current + 1);
      GoToPreservesValid(p.show, p.show.current - 1);
    case TransitionEnd(k) => DonePreservesValid(p.show, k);
    case Timeout(k) => DonePreservesValid(p.show, k);
  }

  /** Every sequence of events keeps the invariant: one slide, one visible
      slide and one dot, all at the current index; at most one transition in
      flight; the lock held exactly while it is. */
  lemma {:induction false} RunPreservesValid(p: Page, es: seq<Input>)
    requires Valid(p.show)
    ensures Valid(Run(p, es).show)
    decreases |es|
  {
    if es != [] {
      StepPreservesValid(p, es[0]);
      RunPreservesValid(Step(p, es[0]), es[1..]);
    }
  }

  /** From the loaded page with at least one slide, after any events at all,
      exactly one slide is active, exactly one slide is visible to assistive
      technology and exactly one dot is active. */
  lemma AlwaysExactlyOne(n: nat, es: seq<Input>)
    requires n >= 1
    ensures var s := Run(Load(n), es).show;
      && Count(ActiveFlags(s)) == 1 && Count(VisibleFlags(s)) == 1 && Count(DotFlags(s)) == 1
      && 0 <= s.current < n
  {
    InitValid(n);
    RunPreservesValid(Load(n), es);
    ExactlyOneActive(Run(Load(n), es).show);
  }

  /** While the lock is held, navigation of any kind changes nothing: until
      a completion event arrives, requests are dropped, not queued. */
  lemma {:induction false} LockedIgnoresNavigation(p: Page, es: seq<Input>)
    requires InRange(p.show) && p.show.isAnimating
    requires forall i :: 0 <= i < |es| ==> !IsCompletion(es[i])
    ensures Run(p, es).show == p.show
    decreases |es|
  {
    if es != [] {
      assert !IsCompletion(es[0]);
      assert Step(p, es[0]).show == p.show;
      RunLockedIgnoresTail(p, es);
    }
  }

  lemma {:induction false} RunLockedIgnoresTail(p: Page, es: seq<Input>)
    requires InRange(p.show) && p.show.isAnimating && es != []
    requires forall i :: 0 <= i < |es| ==> !IsCompletion(es[i])
    requires Step(p, es[0]).show == p.show
    ensures Run(p, es).show == p.show
    decreases |es|, 0
  {
    var tail := es[1..];
    assert forall i :: 0 <= i < |tail| ==> !IsCompletion(tail[i]) by {
      forall i | 0 <= i < |tail| ensures !IsCompletion(tail[i]) {
        assert tail[i] == es[i + 1];
      }
    }
    LockedIgnoresNavigation(Step(p, es[0]), tail);
  }

  /** With no slides at all, the first request that is not for slide 0 sets
      the lock and then fails; no completion can ever release it, so the
      slideshow state never changes again. */
  lemma {:induction false} EmptyShowStaysLocked(p: Page, es: seq<Input>)
    requires |p.show.slides| == 0 && p.show.started == [] && p.show.isAnimating
    ensures Run(p, es).show == p.show
    decreases |es|
  {
    if es != [] {
      var q := Step(p, es[0]);
      assert q.show == p.show;
      EmptyShowStaysLocked(q, es[1..]);
    }
  }

  /** How the empty slideshow gets there: the "next" button on a page with
      no slides sets the lock and records no transition. */
  lemma EmptyShowLocksOnNext()
    ensures var s := Step(Load(0), NextClick).show;
      s.isAnimating && s.started == [] && |s.slides| == 0
  {
  }

  /** Running one more event is one more step. */
  lemma {:induction false} RunSnoc(p: Page, es: seq<Input>, e: Input)
    requires InRange(p.show)
    ensures Run(p, es + [e]) == Step(Run(p, es), e)
    decreases |es|
  {
    if es == [] {
      assert [e][1..] == [];
    } else {
      assert (es + [e])[1..] == es[1..] + [e];
      RunSnoc(Step(p, es[0]), es[1..], e);
    }
  }

  /** Both completion paths firing, in either order, complete the transition
      once: the second delivery leaves the page as the first made it. */
  lemma BothSignalsCompleteOnce(p: Page, k: nat)
    requires InRange(p.show)
    ensures Step(Step(p, TransitionEnd(k)), Timeout(k)) == Step(p, Timeout(k))
    ensures Step(Step(p, Timeout(k)), TransitionEnd(k)) == Step(p, TransitionEnd(k))
  {
    DoneIdempotent(p.show, k);
  }

  /** A dot click on an idle page, once completed, shows that dot's slide. */
  lemma DotClickShowsDot(p: Page, d: nat)
    requires Valid(p.show) && !p.show.isAnimating && d < |p.show.slides| && d != p.show.current
    ensures var q := Step(Step(p, DotClick(d)), Timeout(|p.show.started|));
      q.show.current == d && Shows(q.show, d) && !q.show.isAnimating
  {
    assert p.show.dots[d].index == d;
    NavigateThenComplete(p.show, d);
  }

  /** A completed request from an idle valid page: where it lands. */
  lemma {:induction false} RunRequestThenDone(p: Page, es: seq<Input>, req: Input, target: int, done: Input)
    requires InRange(p.show) && Valid(Run(p, es).show)
    requires var s := Run(p, es).show; !s.isAnimating && target != s.current
    requires Step(Run(p, es), req).show == GoTo(Run(p, es).show, target)
    requires done == TransitionEnd(|Run(p, es).show.started|) || done == Timeout(|Run(p, es).show.started|)
    ensures var q := Run(p, es + [req] + [done]).show;
      && Valid(q) && Shows(q, q.current) && !q.isAnimating
      && q.current == Wrap(target, |p.show.slides|) && |q.started| == |Run(p, es).show.started| + 1
  {
    RunSnoc(p, es, req);
    RunSnoc(p, es + [req], done);
    NavigateThenComplete(Run(p, es).show, target);
  }

  /** A walk through the slides with the buttons, for any n >= 2. First
      leg: "next" then its transition-end lands on slide 1, with dot 1 active
      and slide 0 inactive and hidden. */
  lemma ScenarioNext(n: nat)
    requires n >= 2
    ensures var p := Run(Load(n), [NextClick, TransitionEnd(0)]).show;
      && Valid(p) && !p.isAnimating && |p.started| == 1
      && p.current == 1 && p.dots[1].active && p.slides[0].ariaHidden && !p.slides[0].active
  {
    InitValid(n);
    assert Run(Load(n), []) == Load(n);
    RunRequestThenDone(Load(n), [], NextClick, 1, TransitionEnd(0));
    assert [] + [NextClick] + [TransitionEnd(0)] == [NextClick, TransitionEnd(0)];
  }

  /** Second leg: "prev" then its timeout goes back to slide 0. */
  lemma ScenarioPrev(n: nat)
    requires n >= 2
    ensures var p := Run(Load(n), [NextClick, TransitionEnd(0), PrevClick, Timeout(1)]).show;
      && Valid(p) && !p.isAnimating && |p.started| == 2 && p.current == 0
  {
    ScenarioNext(n);
    RunRequestThenDone(Load(n), [NextClick, TransitionEnd(0)], PrevClick, 0, Timeout(1));
    assert [NextClick, TransitionEnd(0)] + [PrevClick] + [Timeout(1)]
        == [NextClick, TransitionEnd(0), PrevClick, Timeout(1)];
  }

  /** Third leg: "prev" from slide 0 wraps to the last slide and animates
      forward. */
  lemma ScenarioWrap(n: nat)
    requires n >= 2
    ensures var p := Run(Load(n), [NextClick, TransitionEnd(0), PrevClick, Timeout(1), PrevClick]).show;
      && p.isAnimating && p.current == 0 && |p.started| == 3
      && p.started[0].finished && p.started[2] == Transition(0, n - 1, Next, false)
  {
    ScenarioPrev(n);
    var es: seq<Input> := [NextClick, TransitionEnd(0), PrevClick, Timeout(1)];
    var q := Run(Load(n), es);
    assert q.show.started[0].finished;
    RunSnoc(Load(n), es, PrevClick);
    assert Step(q, PrevClick).show == GoTo(q.show, -1);
    assert es + [PrevClick] == [NextClick, TransitionEnd(0), PrevClick, Timeout(1), PrevClick];
  }

  /** Last: the first transition's fallback timer fires late, during the
      third transition; its latch is already set, so nothing changes. */
  lemma ScenarioStaleTimeout(n: nat)
    requires n >= 2
    ensures var p := Run(Load(n), [NextClick, TransitionEnd(0), PrevClick, Timeout(1), PrevClick, Timeout(0)]).show;
      p.isAnimating && p.current == 0 && p.started[2] == Transition(0, n - 1, Next, false)
  {
    ScenarioWrap(n);
    var es: seq<Input> := [NextClick, TransitionEnd(0), PrevClick, Timeout(1), PrevClick];
    var q := Run(Load(n), es);
    RunSnoc(Load(n), es, Timeout(0));
    assert Step(q, Timeout(0)).show == Done(q.show, 0) == q.show;
    assert es + [Timeout(0)] == [NextClick, TransitionEnd(0), PrevClick, Timeout(1), PrevClick, Timeout(0)];
  }
}
