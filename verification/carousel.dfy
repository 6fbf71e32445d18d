/** The hero carousel's `current` slide index: next and previous buttons,
    the six-second timer tick and the indicator dots. The slide count is a
    parameter `n`; the page has three slides. */
module HeroCarousel {

  /** The page's carousel holds three slides. */
  const SlideCount: nat := 3

  /** `useState(0)`. */
  const InitialSlide: int := 0

  /** JavaScript's `%`: truncating division, so the remainder takes the
      sign of the dividend (Dafny's `%` never returns a negative value). */
  function JsRemainder(a: int, n: int): (r: int)
    requires n > 0
    ensures a >= 0 ==> 0 <= r < n && r == a % n
    ensures a < 0 ==> -n < r <= 0
    ensures (a - r) % n == 0
  {
    RemainderLeavesMultiple(a, n);
    RemainderLeavesMultiple(-a, n);
    if a >= 0 then a % n else -((-a) % n)
  }

  /** Taking away the remainder leaves a multiple of `n`, and so does adding
      it to the negated dividend. */
  lemma RemainderLeavesMultiple(m: int, n: int)
    requires n > 0
    ensures (m - m % n) % n == 0
    ensures (-m + m % n) % n == 0
  {
    var q := m / n;
    assert m - m % n == q * n;
    assert -m + m % n == (-q) * n;
    MultipleHasNoRemainder(q, n);
    MultipleHasNoRemainder(-q, n);
  }

  /** A non-zero multiple of `n` is at least `n` away from zero. */
  lemma {:induction false} MultipleIsFarFromZero(d: int, n: int)
    requires n > 0 && d != 0
    ensures d * n >= n || d * n <= -n
    decreases if d > 0 then d else -d
  {
    if d > 1 {
      MultipleIsFarFromZero(d - 1, n);
      assert d * n == (d - 1) * n + n;
    } else if d < -1 {
      MultipleIsFarFromZero(d + 1, n);
      assert d * n == (d + 1) * n - n;
    }
  }

  /** A multiple of `n` leaves no remainder. */
  lemma MultipleHasNoRemainder(q: int, n: int)
    requires n > 0
    ensures (q * n) % n == 0
  {
    var k := q * n;
    var d := q - k / n;
    assert k == (k / n) * n + k % n;
    assert d * n == q * n - (k / n) * n;
    assert d * n == k % n;
    if d != 0 {
      MultipleIsFarFromZero(d, n);
    }
  }

  predicate ValidIndex(n: int, i: int) {
    0 <= i < n
  }

  /** `nextSlide`: `(prev + 1) % slides.length`. */
  function NextSlide(n: nat, current: int): (r: int)
    requires n > 0
    ensures ValidIndex(n, current) ==> ValidIndex(n, r)
    ensures ValidIndex(n, current) ==> r == if current == n - 1 then 0 else current + 1
  {
    JsRemainder(current + 1, n)
  }

  /** `prevSlide`: `(prev - 1 + slides.length) % slides.length`. */
  function PrevSlide(n: nat, current: int): (r: int)
    requires n > 0
    ensures ValidIndex(n, current) ==> ValidIndex(n, r)
    ensures ValidIndex(n, current) ==> r == if current == 0 then n - 1 else current - 1
  {
    JsRemainder(current - 1 + n, n)
  }

  /** The interval callback, written out on its own in the component. */
  function TimerTick(n: nat, current: int): (r: int)
    requires n > 0
    ensures ValidIndex(n, current) ==> ValidIndex(n, r)
  {
    JsRemainder(current + 1, n)
  }

  /** The slide at `index` is the visible one (opacity and indicator width). */
  predicate IsActive(current: int, index: int) {
    index == current
  }

  ghost function ActiveSlides(n: nat, current: int): set<int> {
    set i | 0 <= i < n && IsActive(current, i)
  }

  /** Clicking indicator `idx` (one is drawn per slide) shows slide `idx`. */
  function ShowSlide(n: nat, idx: int): (r: int)
    requires ValidIndex(n, idx)
    ensures forall i :: 0 <= i < n ==> (IsActive(r, i) <==> i == idx)
  {
    idx
  }

  /** Exactly one slide is visible whenever the index is in range. */
  lemma ExactlyOneActive(n: nat, current: int)
    requires ValidIndex(n, current)
    ensures ActiveSlides(n, current) == {current}
    ensures |ActiveSlides(n, current)| == 1
  {
  }

  lemma TickIsNext(n: nat, current: int)
    requires n > 0
    ensures TimerTick(n, current) == NextSlide(n, current)
  {
  }

  lemma PrevUndoesNext(n: nat, current: int)
    requires n > 0 && ValidIndex(n, current)
    ensures PrevSlide(n, NextSlide(n, current)) == current
    ensures NextSlide(n, PrevSlide(n, current)) == current
  {
  }

  datatype Event = Next | Prev | Tick | Indicator(idx: int)

  /** Events the page can raise: indicators exist only for real slides. */
  predicate PossibleEvent(n: nat, e: Event) {
    e.Indicator? ==> ValidIndex(n, e.idx)
  }

  function Step(n: nat, current: int, e: Event): (r: int)
    requires n > 0 && PossibleEvent(n, e)
    ensures ValidIndex(n, current) ==> ValidIndex(n, r)
  {
    match e
    case Next => NextSlide(n, current)
    case Prev => PrevSlide(n, current)
    case Tick => TimerTick(n, current)
    case Indicator(idx) => ShowSlide(n, idx)
  }

  function Run(n: nat, current: int, events: seq<Event>): int
    requires n > 0
    requires forall k :: 0 <= k < |events| ==> PossibleEvent(n, events[k])
    decreases |events|
  {
    if |events| == 0 then current
    else Run(n, Step(n, current, events[0]), events[1..])
  }

  /** From the initial slide, every sequence of clicks and ticks leaves the
      index in range, so exactly one slide is ever shown. */
  lemma {:induction false} RunStaysInRange(n: nat, current: int, events: seq<Event>)
    requires n > 0 && ValidIndex(n, current)
    requires forall k :: 0 <= k < |events| ==> PossibleEvent(n, events[k])
    ensures ValidIndex(n, Run(n, current, events))
    ensures |ActiveSlides(n, Run(n, current, events))| == 1
    decreases |events|
  {
    if |events| > 0 {
      RunStaysInRange(n, Step(n, current, events[0]), events[1..]);
    }
    ExactlyOneActive(n, Run(n, current, events));
  }

  function NextTimes(n: nat, current: int, k: nat): int
    requires n > 0
  {
    if k == 0 then current else NextSlide(n, NextTimes(n, current, k - 1))
  }

  /** Up to `n` presses of "next" advance the index by `k`, wrapping past
      the last slide at most once. */
  lemma {:induction false} NextTimesAdvances(n: nat, current: int, k: nat)
    requires n > 0 && ValidIndex(n, current) && k <= n
    ensures NextTimes(n, current, k) == if current + k < n then current + k else current + k - n
  {
    if k > 0 {
      NextTimesAdvances(n, current, k - 1);
    }
  }

  /** `n` presses of "next" come back to the starting slide. */
  lemma FullCycleReturns(n: nat, current: int)
    requires n > 0 && ValidIndex(n, current)
    ensures NextTimes(n, current, n) == current
  {
    NextTimesAdvances(n, current, n);
  }

  /** On the page's three slides: "previous" from the first wraps to the
      last and "next" from the last wraps to the first. */
  lemma ThreeSlideWrap()
    ensures PrevSlide(SlideCount, InitialSlide) == 2
    ensures NextSlide(SlideCount, 2) == 0
    ensures NextTimes(SlideCount, InitialSlide, SlideCount) == InitialSlide
  {
    FullCycleReturns(SlideCount, InitialSlide);
  }
}
