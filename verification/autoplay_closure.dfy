/** The carousel's autoplay as the component actually wires it
    (src/components/HeroCarousel.tsx:30-38).

    The interval callback calls the `goToNext` of the render in which the
    effect last ran, and the effect only re-runs when `currentIndex` or
    `autoplayPaused` changes. So the lock that an autoplay tick consults is a
    copy taken at that render (`armedLock`), not the lock as it stands. An
    accepted transition sets the lock and changes the index in the same
    render, so with two or more banners the copy taken afterwards is always
    `true`: after its first advance, autoplay never advances again until a
    pointer enter/leave re-arms the interval.

    `HeroCarousel.AutoplayTick` is the corrected behaviour (consult the
    current lock), which the rest of the model uses. */
module AutoplayClosure {
  import opened HeroCarousel

  /** The visible carousel state plus the lock the armed interval closed over. */
  datatype Armed = Armed(view: Carousel, armedLock: bool)

  /** On mount the effect runs once with the initial, unlocked state. */
  function InitArmed(n: nat): (a: Armed)
    requires n >= 1
    ensures a.view == Init(n) && !a.armedLock
  {
    Armed(Init(n), false)
  }

  /** The effect re-runs, capturing the current lock, exactly when the index
      or the pause flag changed in the render that follows an event. */
  function Rearm(before: Carousel, after: Carousel, armed: bool): (r: bool)
    ensures before.index != after.index || before.paused != after.paused ==> r == after.transitioning
    ensures before.index == after.index && before.paused == after.paused ==> r == armed
  {
    if before.index != after.index || before.paused != after.paused then after.transitioning else armed
  }

  /** An autoplay tick as written: no interval while paused; otherwise the
      captured lock decides, and an accepted tick moves forward one banner
      (the index update itself is functional, so it uses the current index). */
  function TickAsWritten(n: nat, a: Armed): (r: Carousel)
    requires n >= 1 && Valid(n, a.view)
    ensures Valid(n, r)
    ensures a.view.paused || a.armedLock ==> r == a.view
    ensures !a.view.paused && !a.armedLock ==>
              r == a.view.(index := (a.view.index + 1) % n, transitioning := true)
  {
    if a.view.paused || a.armedLock then a.view
    else a.view.(index := (a.view.index + 1) % n, transitioning := true)
  }

  /** One event as the component processes it. Only the autoplay tick
      differs from `HeroCarousel.Step`: the button and dot handlers are
      re-created on every render and see the current lock. */
  function StepAsWritten(n: nat, a: Armed, e: Event): (r: Armed)
    requires n >= 1 && Valid(n, a.view) && EventInRange(n, e)
    ensures Valid(n, r.view)
    ensures !e.Tick? ==> r.view == Step(n, a.view, e)
  {
    var after := if e.Tick? then TickAsWritten(n, a) else Step(n, a.view, e);
    Armed(after, Rearm(a.view, after, a.armedLock))
  }

  function RunAsWritten(n: nat, a: Armed, es: seq<Event>): (r: Armed)
    requires n >= 1 && Valid(n, a.view) && AllInRange(n, es)
    ensures Valid(n, r.view)
    decreases |es|
  {
    if |es| == 0 then a else RunAsWritten(n, StepAsWritten(n, a, es[0]), es[1..])
  }

  /** With at least two banners, every accepted transition re-arms the
      interval with the lock set. */
  lemma AcceptedTransitionArmsLocked(n: nat, a: Armed, e: Event)
    requires n >= 2 && Valid(n, a.view) && EventInRange(n, e)
    requires (e.Next? || e.Prev? || e.Dot? || e.Tick?)
    requires StepAsWritten(n, a, e).view != a.view
    ensures StepAsWritten(n, a, e).armedLock
  {
  }

  /** Once the interval has been armed with the lock set, no sequence of
      autoplay ticks and timeouts ever moves the carousel again. */
  lemma {:induction false} ArmedLockedStalls(n: nat, a: Armed, es: seq<Event>)
    requires n >= 1 && Valid(n, a.view) && a.armedLock && TimersOnly(es)
    ensures AllInRange(n, es) && RunAsWritten(n, a, es).view.index == a.view.index
    ensures RunAsWritten(n, a, es).armedLock
    decreases |es|
  {
    if |es| > 0 {
      var a1 := StepAsWritten(n, a, es[0]);
      assert a1.view.index == a.view.index && a1.armedLock;
      assert TimersOnly(es[1..]);
      ArmedLockedStalls(n, a1, es[1..]);
    }
  }

  /** The discrepancy, concretely: two banners, nobody touching the page.
      The first autoplay tick advances to banner 1 and its timeout settles;
      the second tick, as written, leaves banner 1 on screen, while the
      corrected autoplay wraps round to banner 0. */
  lemma StaleLockStopsAutoplay()
    ensures var es := [Tick, Settle, Tick, Settle];
            RunAsWritten(2, InitArmed(2), es).view.index == 1
            && Run(2, Init(2), es).index == 0
  {
  }

  /** More generally: from mount, with at least two banners and only timers
      firing, the as-written carousel never gets past banner 1. */
  lemma {:induction false} AutoplayAdvancesOnce(n: nat, es: seq<Event>)
    requires n >= 2 && TimersOnly(es)
    ensures AllInRange(n, es) && RunAsWritten(n, InitArmed(n), es).view.index <= 1
  {
    if |es| > 0 {
      var a1 := StepAsWritten(n, InitArmed(n), es[0]);
      assert TimersOnly(es[1..]);
      if es[0] == Tick {
        assert a1.view.index == 1 && a1.armedLock;
        ArmedLockedStalls(n, a1, es[1..]);
      } else {
        assert a1 == InitArmed(n);
        AutoplayAdvancesOnce(n, es[1..]);
      }
    }
  }

  /** The pause guard of the interval holds as written too: while the
      pointer rests on the carousel, removing every autoplay tick from a run
      of events changes neither the carousel nor the captured lock. */
  lemma {:induction false} PausedTicksAreInertAsWritten(n: nat, a: Armed, es: seq<Event>)
    requires n >= 1 && Valid(n, a.view) && AllInRange(n, es)
    requires a.view.paused && KeepsPaused(es)
    ensures AllInRange(n, WithoutTicks(es)) && RunAsWritten(n, a, es) == RunAsWritten(n, a, WithoutTicks(es))
    decreases |es|
  {
    WithoutTicksInRange(n, es);
    if |es| > 0 {
      var a1 := StepAsWritten(n, a, es[0]);
      assert a1.view.paused;
      assert KeepsPaused(es[1..]);
      assert AllInRange(n, es[1..]);
      PausedTicksAreInertAsWritten(n, a1, es[1..]);
      if es[0] == Tick {
        assert a1 == a;
      } else {
        var w := WithoutTicks(es);
        assert w == [es[0]] + WithoutTicks(es[1..]);
        assert w[1..] == WithoutTicks(es[1..]);
      }
    }
  }

  /** What does revive it: the pointer entering and leaving the carousel
      while no transition is running re-arms the interval with the lock
      clear, after which the next tick advances again. */
  lemma HoverRearmsUnlocked(n: nat, a: Armed)
    requires n >= 1 && Valid(n, a.view) && !a.view.transitioning && !a.view.paused
    ensures var a2 := StepAsWritten(n, StepAsWritten(n, a, Hover(true)), Hover(false));
            a2.view == a.view && !a2.armedLock
            && StepAsWritten(n, a2, Tick).view == GoToNext(n, a.view)
  {
  }
}
