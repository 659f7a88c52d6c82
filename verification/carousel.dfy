/**
 * The slide position of the home-page promotion carousel
 * (components/promotion-carousel.tsx): arrows, dots and a timer move the
 * index around the promotions modulo their number.
 */
module Carousel {

  /** `(i + 1) % n` */
  function NextIndex(i: nat, n: nat): (r: nat)
    requires i < n
    ensures r < n
    ensures i + 1 < n ==> r == i + 1
    ensures i + 1 == n ==> r == 0
  {
    (i + 1) % n
  }

  /** `(i - 1 + n) % n` */
  function PreviousIndex(i: nat, n: nat): (r: nat)
    requires i < n
    ensures r < n
    ensures i > 0 ==> r == i - 1
    ensures i == 0 ==> r == n - 1
  {
    (i - 1 + n) % n
  }

  /** The previous arrow undoes the next arrow, and the other way round. */
  lemma ArrowsAreInverse(i: nat, n: nat)
    requires i < n
    ensures PreviousIndex(NextIndex(i, n), n) == i
    ensures NextIndex(PreviousIndex(i, n), n) == i
  {
  }

  /** The index after `k` timer ticks (or presses of the next arrow). */
  function Advance(i: nat, n: nat, k: nat): (r: nat)
    requires i < n
    ensures r < n
  {
    if k == 0 then i else NextIndex(Advance(i, n, k - 1), n)
  }

  /** Ticks compose: `a` ticks followed by `b` ticks are `a + b` ticks. */
  lemma {:induction false} AdvanceCompose(i: nat, n: nat, a: nat, b: nat)
    requires i < n
    ensures Advance(Advance(i, n, a), n, b) == Advance(i, n, a + b)
  {
    if b > 0 {
      AdvanceCompose(i, n, a, b - 1);
    }
  }

  /** Before wrapping around, `k` ticks move the index `k` slides on. */
  lemma {:induction false} AdvanceWithoutWrap(i: nat, n: nat, k: nat)
    requires i + k < n
    ensures Advance(i, n, k) == i + k
  {
    if k > 0 {
      AdvanceWithoutWrap(i, n, k - 1);
    }
  }

  /** `n` ticks bring the carousel back to the slide it showed. */
  lemma FullCycle(i: nat, n: nat)
    requires i < n
    ensures Advance(i, n, n) == i
  {
    AdvanceWithoutWrap(i, n, n - 1 - i);
    assert Advance(i, n, n - i) == 0;
    AdvanceCompose(i, n, n - i, i);
    AdvanceWithoutWrap(0, n, i);
  }

  /** The slide indices the dots offer, one per promotion. */
  function Dots(n: nat): (r: seq<nat>)
    ensures |r| == n && forall k :: 0 <= k < n ==> r[k] == k
  {
    seq(n, k => k)
  }

  /** The carousel's `currentIndex` state over a list of `count` promotions. */
  class SlideShow {
    const count: nat
    var index: nat

    /** With promotions to show, the index names one of them. */
    ghost predicate Valid()
      reads this
    {
      count > 0 ==> index < count
    }

    /** `useState(0)` */
    constructor (count: nat)
      ensures this.count == count && index == 0
      ensures Valid()
    {
      this.count := count;
      index := 0;
    }

    /** Nothing is rendered, so no arrow, dot or slide, when there are no promotions. */
    predicate Rendered()
      reads this
    {
      count > 0
    }

    /** `goToNext`, and also what each timer tick does. */
    method Next()
      requires Valid() && Rendered()
      modifies this
      ensures index == NextIndex(old(index), count)
      ensures Valid()
    {
      index := (index + 1) % count;
    }

    /** `goToPrevious` */
    method Previous()
      requires Valid() && Rendered()
      modifies this
      ensures index == PreviousIndex(old(index), count)
      ensures Valid()
    {
      index := (index - 1 + count) % count;
    }

    /** `goToSlide(k)`, reachable from the dot `k`. */
    method GoToSlide(k: nat)
      requires k in Dots(count)
      modifies this
      ensures index == k
      ensures Valid()
    {
      index := k;
    }

    /** The promotion on screen. */
    function Current<T>(promotions: seq<T>): (p: T)
      reads this
      requires Valid() && Rendered() && |promotions| == count
      ensures p == promotions[index]
    {
      promotions[index]
    }
  }
}
