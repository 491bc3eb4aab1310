/** The horizontally scrolling product rail (src/components/FeaturedSection.tsx).

    The DOM scroll surface is outside the model: its widths and its reported
    offset arrive as integer inputs (`Resize`, `Scrolled`), and a press of an
    arrow button produces a smooth-scroll request (a `ScrollTo(target)`,
    the second component of `Step`'s result) instead of moving anything.
    The component's own state is the last reported offset and the maximum
    scroll it computed. */
module ScrollRail {

  /** The distance one arrow press asks to scroll. */
  const StepSize: int := 600
  /** Margin near an end within which that end's control and shadow are hidden. */
  const EdgeThreshold: int := 20

  datatype Rail = Rail(position: int, maxScroll: int)

  /** What the component asks of the scroll surface after an event. */
  datatype Request = NoRequest | ScrollTo(target: int)

  datatype Event =
    | Resize(scrollWidth: int, clientWidth: int)  // mount, product change, window resize
    | Scrolled(offset: int)                        // the surface reports its offset
    | PressLeft
    | PressRight

  /** On mount both values start at 0. */
  function Init(): (r: Rail)
    ensures r.position == 0 && r.maxScroll == 0
  {
    Rail(0, 0)
  }

  /** `maxScroll` is content width minus visible width, with no clamping. */
  function MaxScroll(scrollWidth: int, clientWidth: int): (m: int)
    ensures m + clientWidth == scrollWidth
  {
    scrollWidth - clientWidth
  }

  /** The left button's target: one step back, but not before the start. */
  function LeftTarget(pos: int): (t: int)
    ensures t >= 0
    ensures t >= pos - StepSize
    ensures t == 0 || t == pos - StepSize
    ensures pos >= 0 ==> t <= pos
  {
    if pos - StepSize > 0 then pos - StepSize else 0
  }

  /** The right button's target: one step on, but not past `maxScroll`. */
  function RightTarget(pos: int, maxScroll: int): (t: int)
    ensures t <= maxScroll
    ensures t <= pos + StepSize
    ensures t == maxScroll || t == pos + StepSize
    ensures pos <= maxScroll ==> t >= pos
  {
    if pos + StepSize < maxScroll then pos + StepSize else maxScroll
  }

  /** The left control and the left shadow are rendered. */
  predicate ShowLeft(r: Rail) {
    r.position > EdgeThreshold
  }

  /** The right control and the right shadow are rendered. */
  predicate ShowRight(r: Rail) {
    r.position < r.maxScroll - EdgeThreshold
  }

  /** One event: the new state and the scroll request it issues. An arrow
      button exists only while its control is shown, so a press arrives only
      then; a press issues a request and only the scroll handler changes the
      position. */
  function Step(r: Rail, e: Event): (res: (Rail, Request))
    ensures (e.PressLeft? || e.PressRight?) ==> res.0 == r
    ensures e.PressLeft? ==> res.1 == if ShowLeft(r) then ScrollTo(LeftTarget(r.position)) else NoRequest
    ensures e.PressRight? ==> res.1 == if ShowRight(r) then ScrollTo(RightTarget(r.position, r.maxScroll)) else NoRequest
    ensures e.Scrolled? ==> res.0 == r.(position := e.offset) && res.1 == NoRequest
    ensures e.Resize? ==> res.0.position == r.position && res.1 == NoRequest
    ensures e.Resize? ==> res.0.maxScroll + e.clientWidth == e.scrollWidth
  {
    match e
    case Resize(sw, cw) => (r.(maxScroll := MaxScroll(sw, cw)), NoRequest)
    case Scrolled(x) => (r.(position := x), NoRequest)
    case PressLeft => (r, if ShowLeft(r) then ScrollTo(LeftTarget(r.position)) else NoRequest)
    case PressRight => (r, if ShowRight(r) then ScrollTo(RightTarget(r.position, r.maxScroll)) else NoRequest)
  }

  /** The position a run of events leaves behind. */
  function RunPosition(r: Rail, es: seq<Event>): (p: int)
    ensures (forall i | 0 <= i < |es| :: !es[i].Scrolled?) ==> p == r.position
    decreases |es|
  {
    if |es| == 0 then r.position else RunPosition(Step(r, es[0]).0, es[1..])
  }

  /** At the start, the left button asks for the start; at the end, the
      right button asks for the end. */
  lemma TargetsFixedAtEnds(m: int)
    ensures LeftTarget(0) == 0
    ensures RightTarget(m, m) == m
  {
  }

  /** An arrow press followed by the surface arriving where it was asked to
      go (the smooth scroll's final `scroll` report). The surface is assumed
      to come to rest exactly on the requested target: scroll snapping to
      card edges is outside the model. */
  function PressAndArrive(r: Rail, e: Event): (r': Rail)
    requires e.PressLeft? || e.PressRight?
    ensures r'.maxScroll == r.maxScroll
    ensures e.PressLeft? ==> r'.position == if ShowLeft(r) then LeftTarget(r.position) else r.position
    ensures e.PressRight? ==> r'.position == if ShowRight(r) then RightTarget(r.position, r.maxScroll) else r.position
  {
    var (r1, q) := Step(r, e);
    match q
    case NoRequest => r1
    case ScrollTo(t) => Step(r1, Scrolled(t)).0
  }

  /** `k` presses of the same arrow, each followed by its arrival. */
  function PressRepeatedly(r: Rail, e: Event, k: nat): (r': Rail)
    requires e.PressLeft? || e.PressRight?
    ensures r'.maxScroll == r.maxScroll
    decreases k
  {
    if k == 0 then r else PressRepeatedly(PressAndArrive(r, e), e, k - 1)
  }

  /** Pressing left moves back a full step per press while that stays more
      than 20 units from the start; otherwise the presses end somewhere in
      the first 20 units, where the left control is hidden. */
  lemma {:induction false} LeftPressesEndNearStart(r: Rail, k: nat)
    requires r.position >= 0
    ensures var p := PressRepeatedly(r, PressLeft, k).position;
            (r.position - k * StepSize > EdgeThreshold ==> p == r.position - k * StepSize)
            && (r.position - k * StepSize <= EdgeThreshold ==> 0 <= p <= EdgeThreshold)
    decreases k
  {
    if k > 0 {
      var r1 := PressAndArrive(r, PressLeft);
      LeftPressesEndNearStart(r1, k - 1);
      if ShowLeft(r) && r.position - StepSize > 0 {
        assert r1.position - (k - 1) * StepSize == r.position - k * StepSize;
      }
    }
  }

  /** Pressing right moves on a full step per press while that stays more
      than 20 units before the end; otherwise the presses end somewhere in
      the last 20 units, where the right control is hidden. */
  lemma {:induction false} RightPressesEndNearEnd(r: Rail, k: nat)
    requires r.position <= r.maxScroll
    ensures var p := PressRepeatedly(r, PressRight, k).position;
            (r.position + k * StepSize < r.maxScroll - EdgeThreshold ==> p == r.position + k * StepSize)
            && (r.position + k * StepSize >= r.maxScroll - EdgeThreshold ==> r.maxScroll - EdgeThreshold <= p <= r.maxScroll)
    decreases k
  {
    if k > 0 {
      var r1 := PressAndArrive(r, PressRight);
      RightPressesEndNearEnd(r1, k - 1);
      if ShowRight(r) && r.position + StepSize < r.maxScroll {
        assert r1.position + (k - 1) * StepSize == r.position + k * StepSize;
      }
    }
  }

  /** Enough left presses always hide the left control, without ever asking
      for a position before the start. */
  lemma LeftPressesHideControl(r: Rail, k: nat)
    requires r.position >= 0 && k * StepSize >= r.position
    ensures var r' := PressRepeatedly(r, PressLeft, k);
            !ShowLeft(r') && r'.position >= 0
  {
    LeftPressesEndNearStart(r, k);
  }

  /** Enough right presses always hide the right control, without ever
      asking for a position past `maxScroll`. */
  lemma RightPressesHideControl(r: Rail, k: nat)
    requires r.position <= r.maxScroll && r.position + k * StepSize >= r.maxScroll
    ensures var r' := PressRepeatedly(r, PressRight, k);
            !ShowRight(r') && r'.position <= r'.maxScroll
  {
    RightPressesEndNearEnd(r, k);
  }

  /** The recomputed `maxScroll` governs the right control: it is shown
      exactly when more than 20 units of content lie past the visible width,
      content that fits shows none, and a right press never asks to scroll
      past the content's end. */
  lemma ResizeGovernsRightControl(r: Rail, sw: int, cw: int)
    requires r.position >= 0
    ensures var r1 := Step(r, Resize(sw, cw)).0;
            var q := Step(r1, PressRight).1;
            (ShowRight(r1) <==> r.position + cw + EdgeThreshold < sw)
            && (sw <= cw ==> !ShowRight(r1))
            && (q.ScrollTo? ==> r.position < q.target && q.target + cw <= sw)
  {
  }

  /** At either end the corresponding control is hidden. */
  lemma ControlsHiddenAtEnds(r: Rail)
    ensures r.position == 0 ==> !ShowLeft(r)
    ensures r.position == r.maxScroll ==> !ShowRight(r)
  {
  }

  /** When the content overflows by more than twice the margin, at least one
      control is always offered. */
  lemma SomeControlWhenOverflowing(r: Rail)
    requires r.maxScroll > 2 * EdgeThreshold
    ensures ShowLeft(r) || ShowRight(r)
  {
  }

  /** A rail with 1000 units of overflow, scrolled to the start: a right
      press asks for 600; once there, the left control shows; the next right
      press asks for 1000 (clamped), and once there the right control hides. */
  lemma ThousandUnitScenario()
    ensures var r0 := Rail(0, 1000);
            var (r1, q1) := Step(r0, PressRight);
            var (r2, _) := Step(r1, Scrolled(600));
            var (r3, q3) := Step(r2, PressRight);
            var (r4, _) := Step(r3, Scrolled(1000));
            q1 == ScrollTo(600) && r1 == r0 && ShowLeft(r2)
            && q3 == ScrollTo(1000) && !ShowRight(r4) && ShowLeft(r4)
  {
  }
}
