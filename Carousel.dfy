/**
 * The slideshow of `slideshow-carousel.js`: a 1-based `slideIndex`, moved by
 * `plusSlides` and pulled back into range by `showSlides`, which hides every
 * slide and then shows the one at `slideIndex`.
 */
module Carousel {

  /** A slide's `style.display`: `"none"` or `"block"`. */
  datatype Display = DisplayNone | DisplayBlock

  /**
   * The index `showSlides(n)` leaves behind when the index was `current`:
   * past the end goes to the first slide, before the start to the last,
   * otherwise the index is left alone.
   */
  function Settle(len: int, n: int, current: int): (r: int)
    ensures len >= 1 && !(1 <= n <= len) ==> 1 <= r <= len
    ensures 1 <= n <= len ==> r == current
  {
    if n > len then 1 else if n < 1 then len else current
  }

  /** The index after `plusSlides(n)` from `i`. */
  function Advance(len: int, i: int, n: int): (r: int)
    requires len >= 1
    ensures 1 <= r <= len
    ensures r == i + n || r == 1 || r == len
  {
    Settle(len, i + n, i + n)
  }

  /** Index `k` reached by wrapping around modulo the number of slides. */
  function Wrap(len: int, k: int): (r: int)
    requires len >= 1
    ensures 1 <= r <= len
  {
    (k - 1) % len + 1
  }

  /** A single step forward or back (what the prev/next buttons do) wraps around like modular arithmetic. */
  lemma SingleStepWraps(len: int, i: int, n: int)
    requires len >= 1 && 1 <= i <= len && -1 <= n <= 1
    ensures Advance(len, i, n) == Wrap(len, i + n)
  {
    if i + n > len {
      assert i + n - 1 == len;
    } else if i + n < 1 {
      assert (i + n - 1) % len == len - 1;
    } else {
      assert (i + n - 1) % len == i + n - 1;
    }
  }

  /** A longer jump does not: from slide 1 of 3, four steps forward land on 1, not on 2. */
  lemma LongJumpDoesNotWrap()
    ensures Advance(3, 1, 4) == 1 && Wrap(3, 1 + 4) == 2
  {
  }

  /** Any overshoot lands on the first or last slide, however far it goes. */
  lemma OvershootClamps(len: int, i: int, n: int)
    requires len >= 1
    ensures i + n > len ==> Advance(len, i, n) == 1
    ensures i + n < 1 ==> Advance(len, i, n) == len
    ensures 1 <= i + n <= len ==> Advance(len, i, n) == i + n
  {
  }

  /** The index after `k` presses of the same button. */
  function Presses(len: int, i: int, n: int, k: nat): (r: int)
    requires len >= 1
    ensures k > 0 ==> 1 <= r <= len
  {
    if k == 0 then i else Advance(len, Presses(len, i, n, k - 1), n)
  }

  /** From slide 1, pressing next `k < len` times shows slide `k + 1`, and `len` presses come back to 1. */
  lemma {:induction false} NextCycles(len: int, k: nat)
    requires len >= 1 && k <= len
    ensures k < len ==> Presses(len, 1, 1, k) == 1 + k
    ensures k == len ==> Presses(len, 1, 1, k) == 1
  {
    if k > 0 {
      NextCycles(len, k - 1);
    }
  }

  /** From slide 1, pressing previous shows the last slide. */
  lemma PrevFromFirst(len: int)
    requires len >= 1
    ensures Presses(len, 1, -1, 1) == len
  {
  }

  /** Slide `k` (0-based) is the only one displayed. */
  predicate OnlyVisible(ds: seq<Display>, k: int) {
    forall m :: 0 <= m < |ds| ==> (ds[m] == DisplayBlock <==> m == k)
  }

  /** The number of displayed slides. */
  function CountVisible(ds: seq<Display>): nat {
    if ds == [] then 0 else CountVisible(ds[..|ds| - 1]) + (if ds[|ds| - 1] == DisplayBlock then 1 else 0)
  }

  /** When one in-range slide is the only one displayed, exactly one slide is displayed. */
  lemma {:induction false} OnlyVisibleCountsOne(ds: seq<Display>, k: int)
    requires OnlyVisible(ds, k)
    ensures CountVisible(ds) == (if 0 <= k < |ds| then 1 else 0)
  {
    if ds != [] {
      var front := ds[..|ds| - 1];
      assert OnlyVisible(front, k) by {
        forall m | 0 <= m < |front| ensures front[m] == DisplayBlock <==> m == k {
          assert front[m] == ds[m];
        }
      }
      OnlyVisibleCountsOne(front, k);
    }
  }

  class Slideshow {
    /** The global `slideIndex`, 1-based. */
    var slideIndex: int
    /** The `.my-slides` elements, in document order. */
    const slides: array<Display>

    ghost predicate Valid()
      reads this
    {
      slides.Length >= 1 && 1 <= slideIndex <= slides.Length
    }

    /** Script load: `slideIndex` starts at 1. */
    constructor (slides: array<Display>)
      requires slides.Length >= 1
      ensures Valid()
      ensures slideIndex == 1 && this.slides == slides
    {
      this.slides := slides;
      slideIndex := 1;
    }

    /**
     * `showSlides(n)`: settle the index, hide every slide, show the one at
     * the index. There must be a slide, and an in-range `n` needs the index
     * itself in range, or `slides[slideIndex-1]` does not exist.
     */
    method ShowSlides(n: int)
      requires slides.Length >= 1
      requires 1 <= n <= slides.Length ==> 1 <= slideIndex <= slides.Length
      modifies this`slideIndex, slides
      ensures slideIndex == Settle(slides.Length, n, old(slideIndex))
      ensures Valid()
      ensures OnlyVisible(slides[..], slideIndex - 1)
    {
      if n > slides.Length { slideIndex := 1; }
      if n < 1 { slideIndex := slides.Length; }
      for i := 0 to slides.Length
        invariant slideIndex == Settle(slides.Length, n, old(slideIndex))
        invariant forall m :: 0 <= m < i ==> slides[m] == DisplayNone
      {
        slides[i] := DisplayNone;
      }
      slides[slideIndex - 1] := DisplayBlock;
    }

    /** `plusSlides(n)`: `showSlides(slideIndex += n)`. */
    method PlusSlides(n: int)
      requires Valid()
      modifies this`slideIndex, slides
      ensures Valid()
      ensures slideIndex == Advance(slides.Length, old(slideIndex), n)
      ensures OnlyVisible(slides[..], slideIndex - 1)
    {
      slideIndex := slideIndex + n;
      ShowSlides(slideIndex);
    }

    /** The `DOMContentLoaded` handler: `showSlides(slideIndex)`, which keeps an in-range index. */
    method OnContentLoaded()
      requires Valid()
      modifies this`slideIndex, slides
      ensures Valid()
      ensures slideIndex == old(slideIndex)
      ensures OnlyVisible(slides[..], slideIndex - 1)
    {
      ShowSlides(slideIndex);
    }
  }
}
