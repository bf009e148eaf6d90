/**
 * The news carousel fragment: `n` slides shown `slidesToShow` at a time,
 * starting at `currentSlide`; next/previous with wrap-around, a clamped
 * jump, one indicator per page, disabled-looking controls at either end,
 * swipe gestures and an autoplay tick that respects a pause flag.
 */
module NewsCarousel {
  import opened Wrappers

  function Min(a: int, b: int): int { if a < b then a else b }
  function Max(a: int, b: int): int { if a < b then b else a }

  const SwipeThreshold := 50
  const DefaultSlidesToShow := 3

  /** The last start position that still fills the view. */
  function MaxSlide(n: int, s: int): int
  {
    Max(0, n - s)
  }

  /** `setupResponsiveCarousel`'s rule for the number of visible slides. */
  function SlidesFor(width: int, desktop: int): int
  {
    if width < 768 then 1 else if width < 1024 then 2 else desktop
  }

  /** `goToSlide`: the index clamped into `[0, MaxSlide]`. */
  function GoToSlide(index: int, n: int, s: int): (r: int)
    ensures 0 <= r <= MaxSlide(n, s)
    ensures 0 <= index <= MaxSlide(n, s) ==> r == index
  {
    Max(0, Min(index, MaxSlide(n, s)))
  }

  /** `nextSlide`: back to the start from the last page, else one page on. */
  function NextSlide(current: int, n: int, s: int): int
  {
    if current >= n - s then 0 else current + s
  }

  /** `previousSlide` as written: from the start to `n - s`, else one page
      back, with no lower bound. */
  function PreviousSlideAsWritten(current: int, n: int, s: int): int
  {
    if current <= 0 then n - s else current - s
  }

  /** `previousSlide` as intended: the same moves, kept within the slides. */
  function PreviousSlide(current: int, n: int, s: int): int
  {
    if current <= 0 then MaxSlide(n, s) else Max(0, current - s)
  }

  /** Five slides three at a time: End, then ArrowLeft, leaves the carousel
      at slide -1, and so does ArrowLeft at the start with two slides. */
  lemma PreviousSlideGoesNegative()
    ensures PreviousSlideAsWritten(GoToSlide(5 - 3, 5, 3), 5, 3) == -1
    ensures PreviousSlideAsWritten(0, 2, 3) == -1
  {
  }

  /** The correction changes the written `previousSlide` exactly where the
      written one would leave the slides. */
  lemma PreviousAgreement(current: int, n: int, s: int)
    requires 1 <= s && 0 <= current < n
    ensures PreviousSlide(current, n, s) == PreviousSlideAsWritten(current, n, s)
        <==> 0 <= PreviousSlideAsWritten(current, n, s)
    ensures -s < PreviousSlideAsWritten(current, n, s) < n
  {
  }

  /** Every move keeps the position on a slide. */
  lemma MovesStayOnSlides(current: int, n: int, s: int)
    requires 1 <= s && 0 <= current < n
    ensures 0 <= NextSlide(current, n, s) < n
    ensures 0 <= PreviousSlide(current, n, s) <= MaxSlide(n, s)
    ensures NextSlide(current, n, s) == 0 <==> current >= n - s
  {
  }

  /** Next and previous undo each other in the middle of the slides. */
  lemma NextPreviousInverse(current: int, n: int, s: int)
    requires 1 <= s && 0 <= current < n
    ensures current < n - s ==> PreviousSlide(NextSlide(current, n, s), n, s) == current
    ensures current >= s ==> NextSlide(PreviousSlide(current, n, s), n, s) == current
  {
  }

  // ---------------------------------------------------------------- indicators

  /** `Math.ceil(n / slidesToShow)` indicators. */
  function IndicatorCount(n: int, s: int): int
    requires s >= 1
  {
    (n + s - 1) / s
  }

  /** `updateIndicators` as written: indicator `i` is active when it is
      `floor(currentSlide / slidesToShow)`. */
  predicate IndicatorActiveAsWritten(i: int, current: int, s: int)
    requires s >= 1
  {
    i == current / s
  }

  /** Five slides three at a time: the second indicator jumps to slide 3,
      clamped to slide 2, and then the first indicator is the active one. */
  lemma LastIndicatorLightsAnother()
    ensures IndicatorCount(5, 3) == 2
    ensures GoToSlide(1 * 3, 5, 3) == 2
    ensures IndicatorActiveAsWritten(0, GoToSlide(1 * 3, 5, 3), 3)
    ensures !IndicatorActiveAsWritten(1, GoToSlide(1 * 3, 5, 3), 3)
  {
  }

  /** The indicator as intended: the last page's indicator at the end of
      the slides, else the page holding `currentSlide`. */
  function ActiveIndicator(current: int, n: int, s: int): int
    requires s >= 1
  {
    if current >= MaxSlide(n, s) then IndicatorCount(n, s) - 1 else current / s
  }

  lemma CeilBounds(n: int, s: int)
    requires n >= 1 && s >= 1
    ensures var c := IndicatorCount(n, s);
      c >= 1 && (c - 1) * s < n <= c * s
  {
    var c := IndicatorCount(n, s);
    var r := (n + s - 1) % s;
    assert c * s + r == n + s - 1;
  }

  lemma MulMonotone(a: int, b: int, s: int)
    requires a <= b && s >= 0
    ensures a * s <= b * s
  {
  }

  lemma MulDiv(k: int, s: int)
    requires s >= 1
    ensures k * s / s == k
  {
    var q, r := k * s / s, k * s % s;
    assert q * s + r == k * s;
    if q < k {
      MulMonotone(q, k - 1, s);
      assert (k - 1) * s == k * s - s;
    } else if q > k {
      MulMonotone(k + 1, q, s);
    }
  }

  /** The intended indicator is always one of the indicators. */
  lemma ActiveIndicatorInRange(current: int, n: int, s: int)
    requires n >= 1 && s >= 1 && 0 <= current < n
    ensures 0 <= ActiveIndicator(current, n, s) < IndicatorCount(n, s)
  {
    var c := IndicatorCount(n, s);
    CeilBounds(n, s);
    if current < MaxSlide(n, s) {
      var q := current / s;
      assert q * s + current % s == current;
      if q >= c {
        MulMonotone(c, q, s);
      }
    }
  }

  /** Clicking indicator `i` makes it the active one. */
  lemma IndicatorClickActivates(n: int, s: int, i: int)
    requires n >= 1 && s >= 1 && 0 <= i < IndicatorCount(n, s)
    ensures ActiveIndicator(GoToSlide(i * s, n, s), n, s) == i
  {
    var c := IndicatorCount(n, s);
    CeilBounds(n, s);
    var p := i * s;
    MulMonotone(0, i, s);
    if i < c - 1 {
      MulMonotone(i, c - 2, s);
      assert (c - 2) * s == (c - 1) * s - s;
      assert p < MaxSlide(n, s);
      MulDiv(i, s);
    } else {
      assert p == (c - 1) * s;
      assert (c - 1) * s == c * s - s;
      assert p >= MaxSlide(n, s);
    }
  }

  /** The intended indicator is always one of the indicators and agrees with
      the written one at every page start; clicking an indicator makes it
      the active one. */
  lemma ActiveIndicatorSpec(current: int, n: int, s: int, i: int)
    requires n >= 1 && s >= 1 && 0 <= current < n
    ensures 0 <= ActiveIndicator(current, n, s) < IndicatorCount(n, s)
    ensures 0 <= i < IndicatorCount(n, s) ==> ActiveIndicator(GoToSlide(i * s, n, s), n, s) == i
  {
    ActiveIndicatorInRange(current, n, s);
    if 0 <= i < IndicatorCount(n, s) {
      IndicatorClickActivates(n, s, i);
    }
  }

  /** At a page start the two rules agree. */
  lemma ActiveIndicatorAtPageStart(k: int, n: int, s: int)
    requires n >= 1 && s >= 1 && 0 <= k && k * s < n
    ensures ActiveIndicator(k * s, n, s) == k
    ensures IndicatorActiveAsWritten(k, k * s, s)
  {
    CeilBounds(n, s);
    var c := IndicatorCount(n, s);
    MulDiv(k, s);
    if k * s >= MaxSlide(n, s) {
      if k < c - 1 {
        MulMonotone(k, c - 2, s);
      } else if k > c - 1 {
        MulMonotone(c, k, s);
      }
    }
  }

  /** `setupCarouselIndicators`' loop: the slide each indicator jumps to. */
  method IndicatorTargets(n: int, s: int) returns (targets: seq<int>)
    requires s >= 1
    ensures |targets| == Max(0, IndicatorCount(n, s))
    ensures forall i :: 0 <= i < |targets| ==> targets[i] == i * s
  {
    var total := (n + s - 1) / s;
    targets := [];
    var i := 0;
    while i < total
      invariant 0 <= i <= Max(0, total) && |targets| == i
      invariant forall k :: 0 <= k < i ==> targets[k] == k * s
    {
      targets := targets + [i * s];
      i := i + 1;
    }
  }

  // ---------------------------------------------------------------- gestures

  datatype Swipe = Forward | Backward

  /** A release acts only past the threshold: leftward goes forward. */
  function SwipeOf(startX: int, endX: int): (r: Option<Swipe>)
    ensures r == Some(Forward) <==> startX - endX > SwipeThreshold
    ensures r == Some(Backward) <==> endX - startX > SwipeThreshold
  {
    var difference := startX - endX;
    if difference > SwipeThreshold || -difference > SwipeThreshold then
      (if difference > 0 then Some(Forward) else Some(Backward))
    else None
  }

  function LastOr(moves: seq<int>, otherwise: int): int
  {
    if moves == [] then otherwise else moves[|moves| - 1]
  }

  /** The release as written: `touchstart` and `mousedown` set only the
      start, so a gesture without moves ends at the position the previous
      gesture left (`0` before any). */
  function ReleaseAsWritten(leftOver: int, startX: int, moves: seq<int>): Option<Swipe>
  {
    SwipeOf(startX, LastOr(moves, leftOver))
  }

  /** A first touch at x = 200 that never moves still turns the page. */
  lemma TapTurnsPage()
    ensures ReleaseAsWritten(0, 200, []) == Some(Forward)
  {
  }

  /** The release as intended: a gesture ends where its last move was, or
      where it started. */
  function Release(startX: int, moves: seq<int>): Option<Swipe>
  {
    SwipeOf(startX, LastOr(moves, startX))
  }

  /** A tap never turns the page, and a gesture's outcome depends on its
      own positions only. */
  lemma ReleaseOwnGesture(startX: int, moves: seq<int>, leftOver: int)
    ensures Release(startX, []) == None
    ensures moves != [] ==> Release(startX, moves) == ReleaseAsWritten(leftOver, startX, moves)
  {
  }

  // ---------------------------------------------------------------- the fragment

  datatype Key = ArrowLeft | ArrowRight | Home | End | OtherKey

  class Carousel {
    const slideCount: int
    const desktopSlides: int
    const showAutoplay: bool
    var active: bool
    var slidesToShow: int
    var currentSlide: int
    var isAutoplayPaused: bool
    var startX: int
    var currentX: int
    var isDragging: bool

    /** An initialised carousel always shows some slide. */
    ghost predicate Valid()
      reads this
    {
      active ==> && 1 <= slideCount && 1 <= slidesToShow && 1 <= desktopSlides
                 && 0 <= currentSlide < slideCount
    }

    predicate SlideVisible(i: int)
      reads this
    {
      currentSlide <= i < currentSlide + slidesToShow
    }

    predicate PrevDisabled()
      reads this
    {
      currentSlide == 0
    }

    predicate NextDisabled()
      reads this
    {
      currentSlide >= MaxSlide(slideCount, slidesToShow)
    }

    /** `initializeCarousel`: with no slides it stops; otherwise the
        responsive rule picks the number of visible slides. */
    constructor(n: int, desktop: int, width: int, autoplay: bool)
      requires desktop >= 1
      ensures Valid() && active == (n >= 1)
      ensures slideCount == n && desktopSlides == desktop && showAutoplay == autoplay
      ensures active ==> slidesToShow == SlidesFor(width, desktop) && currentSlide == 0
      ensures !isAutoplayPaused && !isDragging
    {
      slideCount := n;
      desktopSlides := desktop;
      showAutoplay := autoplay;
      slidesToShow := desktop;
      currentSlide := 0;
      isAutoplayPaused := false;
      startX, currentX, isDragging := 0, 0, false;
      active := n >= 1;
      if n >= 1 {
        var s := SlidesFor(width, desktop);
        slidesToShow := s;
        currentSlide := Min(0, MaxSlide(n, s));
      }
    }

    /** `updateCarousel`'s loop over the slides: `aria-hidden` of each. */
    method AriaHidden() returns (hidden: seq<bool>)
      requires Valid() && active
      ensures |hidden| == slideCount
      ensures forall i :: 0 <= i < slideCount ==> (hidden[i] <==> !SlideVisible(i))
      ensures !hidden[currentSlide]
    {
      hidden := [];
      var i := 0;
      while i < slideCount
        invariant 0 <= i <= slideCount && |hidden| == i
        invariant forall k :: 0 <= k < i ==> (hidden[k] <==> !SlideVisible(k))
      {
        var isVisible := i >= currentSlide && i < currentSlide + slidesToShow;
        hidden := hidden + [!isVisible];
        i := i + 1;
      }
    }

    /** The container was resized. */
    method Resize(width: int)
      requires Valid() && active
      modifies this`slidesToShow, this`currentSlide
      ensures Valid()
      ensures slidesToShow == SlidesFor(width, desktopSlides)
      ensures currentSlide == Min(old(currentSlide), MaxSlide(slideCount, slidesToShow))
    {
      slidesToShow := SlidesFor(width, desktopSlides);
      currentSlide := Min(currentSlide, MaxSlide(slideCount, slidesToShow));
    }

    method Next()
      requires Valid() && active
      modifies this`currentSlide
      ensures Valid() && currentSlide == NextSlide(old(currentSlide), slideCount, slidesToShow)
    {
      var maxSlide := slideCount - slidesToShow;
      currentSlide := if currentSlide >= maxSlide then 0 else currentSlide + slidesToShow;
    }

    method Previous()
      requires Valid() && active
      modifies this`currentSlide
      ensures Valid() && currentSlide == PreviousSlide(old(currentSlide), slideCount, slidesToShow)
    {
      currentSlide := if currentSlide <= 0 then MaxSlide(slideCount, slidesToShow)
                      else Max(0, currentSlide - slidesToShow);
    }

    /** `previousSlide` exactly as written. The position it reaches may lie
        below 0 (see `PreviousSlideGoesNegative`), and then the carousel is
        no longer `Valid`. */
    method PreviousAsWritten()
      requires Valid() && active
      modifies this`currentSlide
      ensures currentSlide == PreviousSlideAsWritten(old(currentSlide), slideCount, slidesToShow)
      ensures -slidesToShow < currentSlide < slideCount
      ensures Valid() <==> 0 <= currentSlide
    {
      var maxSlide := slideCount - slidesToShow;
      currentSlide := if currentSlide <= 0 then maxSlide else currentSlide - slidesToShow;
    }

    method GoTo(index: int)
      requires Valid() && active
      modifies this`currentSlide
      ensures Valid() && currentSlide == GoToSlide(index, slideCount, slidesToShow)
    {
      currentSlide := Max(0, Min(index, MaxSlide(slideCount, slidesToShow)));
    }

    /** The previous and next buttons act only when not marked disabled,
        and pause autoplay. */
    method ClickPrev()
      requires Valid() && active
      modifies this`currentSlide, this`isAutoplayPaused
      ensures Valid()
      ensures currentSlide == if old(currentSlide) == 0 then 0 else PreviousSlide(old(currentSlide), slideCount, slidesToShow)
      ensures old(currentSlide) != 0 ==> isAutoplayPaused
    {
      if !PrevDisabled() {
        Previous();
        isAutoplayPaused := true;
      }
    }

    method ClickNext()
      requires Valid() && active
      modifies this`currentSlide, this`isAutoplayPaused
      ensures Valid()
      ensures currentSlide == if old(NextDisabled()) then old(currentSlide) else NextSlide(old(currentSlide), slideCount, slidesToShow)
      ensures !old(NextDisabled()) ==> currentSlide > old(currentSlide) && isAutoplayPaused
    {
      if !NextDisabled() {
        Next();
        isAutoplayPaused := true;
      }
    }

    /** Indicator `i` jumps to its page and pauses autoplay. */
    method ClickIndicator(i: int)
      requires Valid() && active && 0 <= i < IndicatorCount(slideCount, slidesToShow)
      modifies this`currentSlide, this`isAutoplayPaused
      ensures Valid() && isAutoplayPaused
      ensures currentSlide == GoToSlide(i * slidesToShow, slideCount, slidesToShow)
      ensures ActiveIndicator(currentSlide, slideCount, slidesToShow) == i
    {
      GoTo(i * slidesToShow);
      ActiveIndicatorSpec(currentSlide, slideCount, slidesToShow, i);
      isAutoplayPaused := true;
    }

    /** The keyboard: arrows move, Home and End jump to either end. */
    method KeyDown(key: Key)
      requires Valid() && active
      modifies this`currentSlide, this`isAutoplayPaused
      ensures Valid()
      ensures currentSlide == match key
        case ArrowLeft => PreviousSlide(old(currentSlide), slideCount, slidesToShow)
        case ArrowRight => NextSlide(old(currentSlide), slideCount, slidesToShow)
        case Home => 0
        case End => MaxSlide(slideCount, slidesToShow)
        case OtherKey => old(currentSlide)
      ensures isAutoplayPaused == (key != OtherKey || old(isAutoplayPaused))
    {
      match key {
        case ArrowLeft => Previous(); isAutoplayPaused := true;
        case ArrowRight => Next(); isAutoplayPaused := true;
        case Home => GoTo(0); isAutoplayPaused := true;
        case End => GoTo(slideCount - slidesToShow); isAutoplayPaused := true;
        case OtherKey =>
      }
    }

    /** A gesture starts: remember where, and pause autoplay. */
    method TouchStart(x: int)
      requires Valid() && active
      modifies this`startX, this`currentX, this`isDragging, this`isAutoplayPaused
      ensures Valid() && startX == x && currentX == x && isDragging && isAutoplayPaused
    {
      startX := x;
      currentX := x;
      isDragging := true;
      isAutoplayPaused := true;
    }

    method TouchMove(x: int)
      requires Valid() && active
      modifies this`currentX
      ensures Valid() && currentX == if isDragging then x else old(currentX)
    {
      if isDragging {
        currentX := x;
      }
    }

    /** A gesture ends: past the threshold it turns the page. */
    method TouchEnd() returns (swipe: Option<Swipe>)
      requires Valid() && active
      modifies this`currentSlide, this`isDragging
      ensures Valid() && !isDragging
      ensures swipe == if old(isDragging) then SwipeOf(startX, currentX) else None
      ensures currentSlide == match swipe
        case None => old(currentSlide)
        case Some(Forward) => NextSlide(old(currentSlide), slideCount, slidesToShow)
        case Some(Backward) => PreviousSlide(old(currentSlide), slideCount, slidesToShow)
    {
      if !isDragging {
        return None;
      }
      isDragging := false;
      swipe := SwipeOf(startX, currentX);
      match swipe {
        case None =>
        case Some(Forward) => Next();
        case Some(Backward) => Previous();
      }
    }

    method Pause()
      modifies this`isAutoplayPaused
      ensures isAutoplayPaused
    {
      isAutoplayPaused := true;
    }

    method Resume()
      modifies this`isAutoplayPaused
      ensures !isAutoplayPaused
    {
      isAutoplayPaused := false;
    }

    /** One tick of the autoplay timer, which runs only when autoplay is
        configured: it advances only while not paused. */
    method AutoplayTick()
      requires Valid() && active
      modifies this`currentSlide
      ensures Valid()
      ensures currentSlide == if showAutoplay && !isAutoplayPaused
                              then NextSlide(old(currentSlide), slideCount, slidesToShow)
                              else old(currentSlide)
    {
      if showAutoplay && !isAutoplayPaused {
        Next();
      }
    }
  }

  /** The integers `lo .. hi - 1`. */
  function Between(lo: int, hi: int): (r: set<int>)
    ensures forall i :: i in r <==> lo <= i < hi
    ensures |r| == Max(0, hi - lo)
    decreases hi - lo
  {
    if lo >= hi then {} else {lo} + Between(lo + 1, hi)
  }

  /** What `updateCarousel`, `updateControlButtons` and `updateIndicators`
      show in every valid state: `min(slidesToShow, n - currentSlide)` slides,
      the current one among them; Prev marked disabled exactly when the first
      slide is in view and Next exactly when the last one is, which is when
      next would wrap to the start; and the indicator `floor(currentSlide /
      slidesToShow)` the code lights, like the corrected one, is one of the
      indicators. */
  lemma ViewSpec(c: Carousel)
    requires c.Valid() && c.active
    ensures |set i | 0 <= i < c.slideCount && c.SlideVisible(i)| == Min(c.slidesToShow, c.slideCount - c.currentSlide)
    ensures c.SlideVisible(c.currentSlide)
    ensures c.PrevDisabled() <==> c.SlideVisible(0)
    ensures c.NextDisabled() <==> c.SlideVisible(c.slideCount - 1)
    ensures c.NextDisabled() <==> NextSlide(c.currentSlide, c.slideCount, c.slidesToShow) == 0
    ensures 0 <= c.currentSlide / c.slidesToShow < IndicatorCount(c.slideCount, c.slidesToShow)
    ensures 0 <= ActiveIndicator(c.currentSlide, c.slideCount, c.slidesToShow) < IndicatorCount(c.slideCount, c.slidesToShow)
  {
    var n, s, cur := c.slideCount, c.slidesToShow, c.currentSlide;
    var hi := Min(cur + s, n);
    assert (set i | 0 <= i < n && c.SlideVisible(i)) == Between(cur, hi);
    WrittenIndicatorInRange(cur, n, s);
    ActiveIndicatorInRange(cur, n, s);
  }

  /** The indicator the code lights, `floor(current / s)`, exists. */
  lemma WrittenIndicatorInRange(current: int, n: int, s: int)
    requires n >= 1 && s >= 1 && 0 <= current < n
    ensures 0 <= current / s < IndicatorCount(n, s)
  {
    var c := IndicatorCount(n, s);
    CeilBounds(n, s);
    var q := current / s;
    assert q * s + current % s == current;
    if q >= c {
      MulMonotone(c, q, s);
    }
  }
}
