/** frontend/src/components/TestimonialsSection.tsx: a carousel over the
    testimonials whose active index moves cyclically with the arrows and
    jumps with the pagination dots. */
module Testimonials {
  /** The section lists three testimonials. */
  const Count := 3
  /** `useState(0)`: the first testimonial is shown first. */
  const InitialIndex := 0

  /** JavaScript's `%`: the remainder takes the sign of the dividend. */
  function JsRem(a: int, n: int): int
    requires n != 0
  {
    if a >= 0 then a % n else -((-a) % n)
  }

  /** `nextTestimonial`'s updater. */
  function Next(i: int, n: int): (r: int)
    requires n != 0
    ensures n > 0 && i >= -1 ==> 0 <= r < n
  {
    JsRem(i + 1, n)
  }

  /** `prevTestimonial`'s updater. */
  function Prev(i: int, n: int): (r: int)
    requires n != 0
    ensures n > 0 && i >= 1 - n ==> 0 <= r < n
  {
    JsRem(i - 1 + n, n)
  }

  /** On an index in range both arrows stay in range: the next of the last
      is the first and the previous of the first is the last. */
  lemma StepsStayInRange(i: int, n: int)
    requires n > 0 && 0 <= i < n
    ensures 0 <= Next(i, n) < n && 0 <= Prev(i, n) < n
    ensures Next(i, n) == (if i == n - 1 then 0 else i + 1)
    ensures Prev(i, n) == (if i == 0 then n - 1 else i - 1)
  {
  }

  /** The arrows undo each other. */
  lemma ArrowsInverse(i: int, n: int)
    requires n > 0 && 0 <= i < n
    ensures Prev(Next(i, n), n) == i
    ensures Next(Prev(i, n), n) == i
  {
    StepsStayInRange(i, n);
    StepsStayInRange(Next(i, n), n);
    StepsStayInRange(Prev(i, n), n);
  }

  /** What the visitor clicks. */
  datatype Click = NextArrow | PrevArrow | Dot(index: nat)

  /** A pagination dot is rendered for each testimonial only. */
  predicate Clickable(c: Click, n: nat) {
    c.Dot? ==> c.index < n
  }

  /** The active index after a click. */
  function Step(i: int, c: Click, n: int): (r: int)
    requires n != 0
    ensures n > 0 && 0 <= i < n && Clickable(c, n) ==> 0 <= r < n
    ensures c.Dot? ==> r == c.index
  {
    match c
    case NextArrow => Next(i, n)
    case PrevArrow => Prev(i, n)
    case Dot(k) => k
  }

  /** The active index after a run of clicks. */
  function Run(i: int, clicks: seq<Click>, n: int): (r: int)
    requires n != 0
    ensures clicks == [] ==> r == i
    ensures clicks != [] && clicks[|clicks| - 1].Dot? ==> r == clicks[|clicks| - 1].index
    decreases |clicks|
  {
    if clicks == [] then i else Run(Step(i, clicks[0], n), clicks[1..], n)
  }

  /** From the initial 0, whatever is clicked, the index stays a testimonial
      (so the slide offset `activeIndex * 100`% stays on the strip), and a dot
      click lands on its own testimonial. */
  lemma {:induction false} RunStaysInRange(i: int, clicks: seq<Click>, n: nat)
    requires n > 0 && 0 <= i < n
    requires forall k :: 0 <= k < |clicks| ==> Clickable(clicks[k], n)
    ensures 0 <= Run(i, clicks, n) < n
    ensures clicks != [] && clicks[|clicks| - 1].Dot? ==> Run(i, clicks, n) == clicks[|clicks| - 1].index
    decreases |clicks|
  {
    if clicks != [] {
      StepsStayInRange(i, n);
      assert Clickable(clicks[0], n);
      RunStaysInRange(Step(i, clicks[0], n), clicks[1..], n);
      if |clicks| > 1 {
        assert clicks[1..][|clicks[1..]| - 1] == clicks[|clicks| - 1];
      }
    }
  }

  /** Going round a circle of n places: x reduced by whole rounds. */
  function Wrap(x: nat, n: nat): (r: nat)
    requires n > 0
    ensures r < n
  {
    if x < n then x else Wrap(x - n, n)
  }

  /** k clicks on the next arrow move k places round the circle. */
  lemma {:induction false} NextRepeated(i: int, k: nat, n: nat)
    requires n > 0 && 0 <= i < n
    ensures Run(i, seq(k, _ => NextArrow), n) == Wrap(i + k, n)
    decreases k
  {
    if k > 0 {
      var clicks := seq(k, _ => NextArrow);
      assert clicks[1..] == seq(k - 1, _ => NextArrow);
      StepsStayInRange(i, n);
      NextRepeated(Next(i, n), k - 1, n);
    }
  }

  /** A full round of next clicks comes back to where it started. */
  lemma FullRound(i: int, n: nat)
    requires n > 0 && 0 <= i < n
    ensures Run(i, seq(n, _ => NextArrow), n) == i
  {
    NextRepeated(i, n, n);
  }

  /** The carousel as the section renders it: starting from the first of its
      three testimonials, any clicks on the arrows and the rendered dots keep
      it on a testimonial, the previous arrow on the first shows the third,
      and three next clicks come back to the first. */
  lemma CarouselStaysOnSlides(clicks: seq<Click>)
    requires forall k :: 0 <= k < |clicks| ==> Clickable(clicks[k], Count)
    ensures 0 <= Run(InitialIndex, clicks, Count) < Count
    ensures Prev(InitialIndex, Count) == 2 && Next(2, Count) == InitialIndex
    ensures Run(InitialIndex, seq(Count, _ => NextArrow), Count) == InitialIndex
  {
    RunStaysInRange(InitialIndex, clicks, Count);
    StepsStayInRange(InitialIndex, Count);
    StepsStayInRange(2, Count);
    FullRound(InitialIndex, Count);
  }
}
