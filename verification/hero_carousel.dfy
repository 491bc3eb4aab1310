/** The hero banner carousel (src/components/HeroCarousel.tsx) as a finite
    state machine over the number `n` of banners.

    The state is the index of the banner on screen, the transition lock and
    the autoplay pause flag. The 500 ms "reset transition state" timeout
    becomes an explicit `Settle` event, the 7000 ms autoplay interval an
    explicit `Tick` event, and pointer enter/leave become `Hover(true/false)`.

    Every operation takes `n >= 1`: the component renders
    `banners[currentIndex].color`, which throws for an empty banner list. */
module HeroCarousel {

  datatype Carousel = Carousel(index: int, transitioning: bool, paused: bool)

  /** The commands the component reacts to. */
  datatype Event =
    | Next              // the right arrow (`goToNext`)
    | Prev              // the left arrow (`goToPrev`)
    | Dot(k: nat)       // the k-th indicator dot (`handleDotClick(k)`)
    | Settle            // the transition timeout fires
    | Tick              // the autoplay interval fires
    | Hover(on: bool)   // pointer enters (true) or leaves (false)

  /** The index points at a banner. */
  predicate Valid(n: nat, c: Carousel) {
    0 <= c.index < n
  }

  /** Dots are generated by `banners.map`, so their indices are in range. */
  predicate EventInRange(n: nat, e: Event) {
    e.Dot? ==> e.k < n
  }

  /** The state on mount: first banner, unlocked, autoplay running. */
  function Init(n: nat): (c: Carousel)
    requires n >= 1
    ensures Valid(n, c) && c.index == 0
    ensures !c.transitioning && !c.paused
  {
    Carousel(0, false, false)
  }

  /** `goToNext`: when unlocked, lock and move forward one banner, wrapping
      from the last banner to the first. */
  function GoToNext(n: nat, c: Carousel): (r: Carousel)
    requires n >= 1 && Valid(n, c)
    ensures Valid(n, r)
    ensures c.transitioning ==> r == c
    ensures !c.transitioning ==> r.transitioning && r.paused == c.paused
    ensures !c.transitioning && c.index < n - 1 ==> r.index == c.index + 1
    ensures !c.transitioning && c.index == n - 1 ==> r.index == 0
  {
    if c.transitioning then c
    else c.(index := (c.index + 1) % n, transitioning := true)
  }

  /** `goToPrev`: when unlocked, lock and move back one banner, wrapping
      from the first banner to the last. */
  function GoToPrev(n: nat, c: Carousel): (r: Carousel)
    requires n >= 1 && Valid(n, c)
    ensures Valid(n, r)
    ensures c.transitioning ==> r == c
    ensures !c.transitioning ==> r.transitioning && r.paused == c.paused
    ensures !c.transitioning && c.index > 0 ==> r.index == c.index - 1
    ensures !c.transitioning && c.index == 0 ==> r.index == n - 1
  {
    if c.transitioning then c
    else c.(index := (c.index - 1 + n) % n, transitioning := true)
  }

  /** `handleDotClick(k)`: ignored while locked or when `k` is already shown;
      otherwise lock and show banner `k`. */
  function DotClick(n: nat, c: Carousel, k: nat): (r: Carousel)
    requires n >= 1 && Valid(n, c) && k < n
    ensures Valid(n, r)
    ensures c.transitioning || k == c.index ==> r == c
    ensures !c.transitioning && k != c.index ==> r == Carousel(k, true, c.paused)
  {
    if c.transitioning || k == c.index then c
    else c.(index := k, transitioning := true)
  }

  /** The transition timeout: releases the lock and nothing else. */
  function SettleLock(c: Carousel): (r: Carousel)
    ensures !r.transitioning
    ensures r.index == c.index && r.paused == c.paused
  {
    c.(transitioning := false)
  }

  /** The autoplay interval firing. While paused there is no interval, so
      nothing happens; otherwise it is `goToNext` with the lock as it stands
      now. (The component as written consults a stale copy of the lock; see
      module `AutoplayClosure`.) */
  function AutoplayTick(n: nat, c: Carousel): (r: Carousel)
    requires n >= 1 && Valid(n, c)
    ensures Valid(n, r)
    ensures c.paused ==> r == c
    ensures !c.paused ==> r == GoToNext(n, c)
  {
    if c.paused then c else GoToNext(n, c)
  }

  /** One event applied to the state. */
  function Step(n: nat, c: Carousel, e: Event): (r: Carousel)
    requires n >= 1 && Valid(n, c) && EventInRange(n, e)
    ensures Valid(n, r)
    ensures c.transitioning && (e.Next? || e.Prev? || e.Dot?) ==> r == c
    ensures e.Settle? ==> r == c.(transitioning := false)
    ensures e.Tick? && c.paused ==> r == c
    ensures e.Hover? ==> r == c.(paused := e.on)
    ensures !e.Hover? ==> r.paused == c.paused
  {
    match e
    case Next => GoToNext(n, c)
    case Prev => GoToPrev(n, c)
    case Dot(k) => DotClick(n, c, k)
    case Settle => SettleLock(c)
    case Tick => AutoplayTick(n, c)
    case Hover(on) => c.(paused := on)
  }

  predicate AllInRange(n: nat, es: seq<Event>) {
    forall i | 0 <= i < |es| :: EventInRange(n, es[i])
  }

  /** A sequence of events applied in order; the index stays on a banner. */
  function Run(n: nat, c: Carousel, es: seq<Event>): (r: Carousel)
    requires n >= 1 && Valid(n, c) && AllInRange(n, es)
    ensures Valid(n, r)
    decreases |es|
  {
    if |es| == 0 then c else Run(n, Step(n, c, es[0]), es[1..])
  }

  /** An accepted `goToNext`, once settled, differs from the start only in the index. */
  lemma NextThenSettle(n: nat, c: Carousel)
    requires n >= 1 && Valid(n, c) && !c.transitioning
    ensures SettleLock(GoToNext(n, c)) == c.(index := (c.index + 1) % n)
  {
  }

  /** Next, settle, previous returns to the banner it started from. */
  lemma NextPrevRoundTrip(n: nat, c: Carousel)
    requires n >= 1 && Valid(n, c) && !c.transitioning
    ensures GoToPrev(n, SettleLock(GoToNext(n, c))).index == c.index
  {
  }

  /** Previous, settle, next returns to the banner it started from. */
  lemma PrevNextRoundTrip(n: nat, c: Carousel)
    requires n >= 1 && Valid(n, c) && !c.transitioning
    ensures GoToNext(n, SettleLock(GoToPrev(n, c))).index == c.index
  {
  }

  /** A direction of an arrow press. */
  datatype Dir = Forward | Backward

  function Delta(d: Dir): int {
    if d.Forward? then 1 else -1
  }

  /** The net displacement of a series of arrow presses. */
  function Net(ds: seq<Dir>): int
    decreases |ds|
  {
    if |ds| == 0 then 0 else Delta(ds[0]) + Net(ds[1..])
  }

  /** Arrow presses, each one let to settle before the next. */
  function Presses(ds: seq<Dir>): (es: seq<Event>)
    ensures |es| == 2 * |ds|
    decreases |ds|
  {
    if |ds| == 0 then []
    else [if ds[0].Forward? then Next else Prev, Settle] + Presses(ds[1..])
  }

  lemma PressesInRange(n: nat, ds: seq<Dir>)
    ensures AllInRange(n, Presses(ds))
  {
  }

  /** Adding to a residue and reducing again is adding and reducing once. */
  lemma ModShift(i: int, d: int, m: int, n: int)
    requires n >= 1
    ensures ((i + d) % n + m) % n == (i + d + m) % n
  {
    var q := (i + d) / n;
    assert (i + d) % n == i + d - q * n;
    assert ((i + d) % n + m) == (i + d + m) + (-q) * n;
    ModMultiple(i + d + m, -q, n);
  }

  lemma ModMultiple(x: int, q: int, n: int)
    requires n >= 1
    ensures (x + q * n) % n == x % n
  {
    var p := x / n;
    assert x == p * n + x % n;
    assert x + q * n == (p + q) * n + x % n by {
      assert (p + q) * n == p * n + q * n;
    }
    ModUnique(x + q * n, p + q, x % n, n);
  }

  /** Euclidean division has exactly one quotient and remainder. */
  lemma ModUnique(y: int, k: int, r: int, n: int)
    requires n >= 1 && 0 <= r < n && y == k * n + r
    ensures y % n == r
  {
    var k', r' := y / n, y % n;
    assert (k - k') * n == r' - r by {
      assert (k - k') * n == k * n - k' * n;
    }
    if k - k' >= 1 {
      assert false;
    } else if k - k' <= -1 {
      assert false;
    }
  }

  /** From an unlocked state, a series of settled arrow presses lands on
      `(start + net displacement) mod n`, and leaves the carousel unlocked. */
  lemma {:induction false} PressesNet(n: nat, c: Carousel, ds: seq<Dir>)
    requires n >= 1 && Valid(n, c) && !c.transitioning
    ensures AllInRange(n, Presses(ds)) && Run(n, c, Presses(ds)) == c.(index := (c.index + Net(ds)) % n)
    decreases |ds|
  {
    PressesInRange(n, ds);
    if |ds| == 0 {
      ModUnique(c.index, 0, c.index, n);
    } else {
      var es := Presses(ds);
      var c2 := OnePress(n, c, ds[0]);
      assert es[2..] == Presses(ds[1..]);
      RunTwo(n, c, es);
      PressesNet(n, c2, ds[1..]);
      ModShift(c.index, Delta(ds[0]), Net(ds[1..]), n);
    }
  }

  /** One arrow press followed by its settle moves by one step and unlocks. */
  lemma OnePress(n: nat, c: Carousel, d: Dir) returns (c2: Carousel)
    requires n >= 1 && Valid(n, c) && !c.transitioning
    ensures Valid(n, c2) && !c2.transitioning
    ensures c2 == Step(n, Step(n, c, if d.Forward? then Next else Prev), Settle)
    ensures c2 == c.(index := (c.index + Delta(d)) % n)
  {
    c2 := Step(n, Step(n, c, if d.Forward? then Next else Prev), Settle);
    if d.Backward? {
      ModMultiple(c.index - 1, 1, n);
    }
  }

  /** Running a sequence of at least two events runs its first two, then the rest. */
  lemma RunTwo(n: nat, c: Carousel, es: seq<Event>)
    requires n >= 1 && Valid(n, c) && AllInRange(n, es) && |es| >= 2
    ensures AllInRange(n, es[2..])
    ensures Run(n, c, es) == Run(n, Step(n, Step(n, c, es[0]), es[1]), es[2..])
  {
  }

  /** Events that cannot lift the pause: everything except pointer leave. */
  predicate KeepsPaused(es: seq<Event>) {
    forall i | 0 <= i < |es| :: es[i] != Hover(false)
  }

  function WithoutTicks(es: seq<Event>): (r: seq<Event>)
    ensures forall i | 0 <= i < |r| :: r[i] != Tick
    ensures forall e | e in r :: e in es
    decreases |es|
  {
    if |es| == 0 then []
    else if es[0] == Tick then WithoutTicks(es[1..])
    else [es[0]] + WithoutTicks(es[1..])
  }

  lemma WithoutTicksInRange(n: nat, es: seq<Event>)
    requires AllInRange(n, es)
    ensures AllInRange(n, WithoutTicks(es))
  {
  }

  /** While the pointer rests on the carousel, the autoplay interval has no
      effect at all: any run of events that does not end the hover ends in
      the same state as the same run with every autoplay tick removed. */
  lemma {:induction false} PausedTicksAreInert(n: nat, c: Carousel, es: seq<Event>)
    requires n >= 1 && Valid(n, c) && AllInRange(n, es)
    requires c.paused && KeepsPaused(es)
    ensures AllInRange(n, WithoutTicks(es)) && Run(n, c, es) == Run(n, c, WithoutTicks(es))
    decreases |es|
  {
    WithoutTicksInRange(n, es);
    if |es| > 0 {
      var c1 := Step(n, c, es[0]);
      assert c1.paused;
      assert KeepsPaused(es[1..]);
      assert AllInRange(n, es[1..]);
      PausedTicksAreInert(n, c1, es[1..]);
      if es[0] == Tick {
        assert c1 == c;
      } else {
        var w := WithoutTicks(es);
        assert w == [es[0]] + WithoutTicks(es[1..]);
        assert w[1..] == WithoutTicks(es[1..]);
      }
    }
  }

  /** Two banners, starting idle on the first: the second press of the arrow
      arrives while locked and is dropped; after the lock settles, the next
      press wraps to the first banner. */
  lemma TwoBannerScenario()
    ensures var c1 := Step(2, Init(2), Next);
            var c2 := Step(2, c1, Next);
            var c3 := Step(2, c2, Settle);
            var c4 := Step(2, c3, Next);
            c1.index == 1 && c1.transitioning && c2 == c1
            && !c3.transitioning && c4.index == 0
  {
  }

  /** Timers only: autoplay ticks and transition timeouts. */
  predicate TimersOnly(es: seq<Event>) {
    forall i | 0 <= i < |es| :: es[i] == Tick || es[i] == Settle
  }

  /** `k` autoplay periods: a tick followed by its timeout. */
  function Periods(k: nat): (es: seq<Event>)
    ensures |es| == 2 * k
    ensures TimersOnly(es)
  {
    if k == 0 then [] else [Tick, Settle] + Periods(k - 1)
  }

  /** The corrected autoplay advances once per period for as long as the
      pointer stays away: after `k` periods the carousel shows banner
      `(start + k) mod n`, and it ends unlocked. */
  lemma {:induction false} CorrectedAutoplayAdvancesEachPeriod(n: nat, c: Carousel, k: nat)
    requires n >= 1 && Valid(n, c) && !c.transitioning && !c.paused
    ensures AllInRange(n, Periods(k)) && Run(n, c, Periods(k)) == c.(index := (c.index + k) % n)
    decreases k
  {
    if k == 0 {
      ModUnique(c.index, 0, c.index, n);
    } else {
      var es := Periods(k);
      var c2 := Step(n, Step(n, c, Tick), Settle);
      assert c2 == c.(index := (c.index + 1) % n);
      assert es[2..] == Periods(k - 1);
      RunTwo(n, c, es);
      CorrectedAutoplayAdvancesEachPeriod(n, c2, k - 1);
      ModShift(c.index, 1, k - 1, n);
    }
  }
}
