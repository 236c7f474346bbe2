// SlideShow: a current index over a fixed array of slides, moved forward and
// backward with wrap-around, and the slide shown on the display.
//
// An unassigned slide array is the empty sequence here: Start, NextSlide and
// PreviousSlide treat null and empty alike, and UpdateSlide, which does not,
// only runs after them. An unassigned display is `hasDisplay == false`. What the display shows is `shown`, None while no
// slide has been put on it.

module Slides {
  import opened Optional

  /** C#'s `a % n` for a positive n: the remainder truncated toward zero, so
      it takes the sign of a. */
  function Remainder(a: int, n: int): (r: int)
    requires n > 0
    ensures a >= 0 ==> 0 <= r < n && r == a % n
    ensures a < 0 ==> -n < r <= 0 && (a - r) % n == 0
  {
    if a >= 0 then a % n
    else
      ModMultiple(0, -((-a) / n), n);
      assert a + (-a) % n == -((-a) / n) * n + 0;
      -((-a) % n)
  }

  /** The index NextSlide moves to: (i + 1) % n. */
  function NextIndex(i: int, n: int): (r: int)
    requires n > 0
    ensures 0 <= i < n ==> 0 <= r < n && r == (if i == n - 1 then 0 else i + 1)
  {
    if 0 <= i < n - 1 then
      DivModUnique(i + 1, 0, i + 1, n);
      Remainder(i + 1, n)
    else if i == n - 1 then
      DivModUnique(n, 1, 0, n);
      Remainder(i + 1, n)
    else
      Remainder(i + 1, n)
  }

  /** The index PreviousSlide moves to: (i - 1 + n) % n. */
  function PreviousIndex(i: int, n: int): (r: int)
    requires n > 0
    ensures 0 <= i < n ==> 0 <= r < n && r == (if i == 0 then n - 1 else i - 1)
  {
    if 0 < i < n then
      DivModUnique(i - 1 + n, 1, i - 1, n);
      Remainder(i - 1 + n, n)
    else if i == 0 then
      DivModUnique(n - 1, 0, n - 1, n);
      Remainder(i - 1 + n, n)
    else
      Remainder(i - 1 + n, n)
  }

  /** Going back undoes going forward, and going forward undoes going back. */
  lemma NextPreviousInverse(i: int, n: int)
    requires 0 <= i < n
    ensures PreviousIndex(NextIndex(i, n), n) == i
    ensures NextIndex(PreviousIndex(i, n), n) == i
  {
  }

  /** The index after k forward steps. */
  function Advance(i: int, k: nat, n: int): int
    requires n > 0
    decreases k
  {
    if k == 0 then i else NextIndex(Advance(i, k - 1, n), n)
  }

  /** The index after k backward steps. */
  function Retreat(i: int, k: nat, n: int): int
    requires n > 0
    decreases k
  {
    if k == 0 then i else PreviousIndex(Retreat(i, k - 1, n), n)
  }

  /** k forward steps move the index k places round the cycle. */
  lemma {:induction false} AdvanceShifts(i: int, k: nat, n: int)
    requires 0 <= i < n
    ensures Advance(i, k, n) == (i + k) % n
    decreases k
  {
    if k > 0 {
      AdvanceShifts(i, k - 1, n);
      var j := (i + k - 1) % n;
      assert (i + k) % n == (j + 1) % n by {
        ShiftMod(i + k - 1, n);
      }
    }
  }

  /** k backward steps move the index k places back round the cycle. */
  lemma {:induction false} RetreatShifts(i: int, k: nat, n: int)
    requires 0 <= i < n
    ensures Retreat(i, k, n) == (i - k) % n
    decreases k
  {
    if k > 0 {
      RetreatShifts(i, k - 1, n);
      var j := (i - k + 1) % n;
      assert (i - k) % n == (j - 1 + n) % n by {
        ShiftBackMod(i - k + 1, n);
      }
    }
  }

  lemma ShiftMod(a: int, n: int)
    requires n > 0
    ensures (a + 1) % n == (a % n + 1) % n
  {
    var q := a / n;
    assert a == q * n + a % n;
    assert a + 1 == q * n + (a % n + 1);
    ModMultiple(a % n + 1, q, n);
  }

  lemma ShiftBackMod(a: int, n: int)
    requires n > 0
    ensures (a - 1) % n == (a % n - 1 + n) % n
  {
    var q := a / n;
    assert a == q * n + a % n;
    assert a - 1 == (q - 1) * n + (a % n - 1 + n);
    ModMultiple(a % n - 1 + n, q - 1, n);
  }

  /** Adding a multiple of n does not change the remainder. */
  lemma ModMultiple(b: int, q: int, n: int)
    requires n > 0
    ensures (q * n + b) % n == b % n
  {
    var s := q * n + b;
    assert s == (q + b / n) * n + b % n;
    DivModUnique(s, q + b / n, b % n, n);
  }

  lemma DivModUnique(s: int, q: int, r: int, n: int)
    requires n > 0 && 0 <= r < n && s == q * n + r
    ensures s % n == r
  {
    var q' := s / n;
    assert (q - q') * n == s % n - r;
    MultipleInRange(q - q', n);
  }

  /** The only multiple of n strictly between -n and n is 0. */
  lemma MultipleInRange(d: int, n: int)
    requires n > 0 && -n < d * n < n
    ensures d == 0
  {
    if d >= 1 {
      assert d * n == (d - 1) * n + n;
      MulNonnegative(d - 1, n);
    } else if d <= -1 {
      assert d * n == -((-d - 1) * n) - n;
      MulNonnegative(-d - 1, n);
    }
  }

  lemma {:induction false} MulNonnegative(a: nat, b: nat)
    ensures a * b >= 0
    decreases a
  {
    if a > 0 {
      MulNonnegative(a - 1, b);
      assert a * b == (a - 1) * b + b;
    }
  }

  /** n forward steps, or n backward steps, come back to the start. */
  lemma FullCycle(i: int, n: int)
    requires 0 <= i < n
    ensures Advance(i, n, n) == i
    ensures Retreat(i, n, n) == i
  {
    AdvanceShifts(i, n, n);
    RetreatShifts(i, n, n);
    DivModUnique(i + n, 1, i, n);
    DivModUnique(i - n, -1, i, n);
  }

  class SlideShow<S> {
    /** The slides, in order. */
    const slides: seq<S>
    /** Whether an Image to show the slides on is assigned. */
    const hasDisplay: bool
    var currentIndex: int
    /** The sprite of the display, when a slide has been put there. */
    var shown: Option<S>

    /** The index stays 0 until there are slides, and then stays among them;
        the display only ever shows the current slide. */
    ghost predicate Valid()
      reads this
    {
      (|slides| == 0 ==> currentIndex == 0)
      && (|slides| > 0 ==> 0 <= currentIndex < |slides|)
      && (shown.Some? ==> hasDisplay && |slides| > 0 && shown.value == slides[currentIndex])
    }

    constructor (slides: seq<S>, hasDisplay: bool)
      ensures Valid()
      ensures this.slides == slides && this.hasDisplay == hasDisplay
      ensures currentIndex == 0 && shown == None
    {
      this.slides := slides;
      this.hasDisplay := hasDisplay;
      currentIndex := 0;
      shown := None;
    }

    /** Without a display or without slides, nothing happens; otherwise the
        show goes back to the first slide. */
    method Start()
      requires Valid()
      modifies this
      ensures Valid()
      ensures hasDisplay && |slides| > 0 ==> currentIndex == 0 && shown == Some(slides[0])
      ensures !(hasDisplay && |slides| > 0) ==> currentIndex == old(currentIndex) && shown == old(shown)
    {
      if !hasDisplay {
        return;
      }
      if |slides| == 0 {
        return;
      }
      currentIndex := 0;
      UpdateSlide();
    }

    /** Moves to the next slide, from the last back to the first. */
    method NextSlide()
      requires Valid()
      modifies this
      ensures Valid()
      ensures |slides| == 0 ==> currentIndex == old(currentIndex) && shown == old(shown)
      ensures |slides| > 0 ==> currentIndex == NextIndex(old(currentIndex), |slides|)
      ensures |slides| > 0 ==> shown == if hasDisplay then Some(slides[currentIndex]) else old(shown)
    {
      if |slides| == 0 {
        return;
      }
      currentIndex := Remainder(currentIndex + 1, |slides|);
      UpdateSlide();
    }

    /** Moves to the previous slide, from the first round to the last. */
    method PreviousSlide()
      requires Valid()
      modifies this
      ensures Valid()
      ensures |slides| == 0 ==> currentIndex == old(currentIndex) && shown == old(shown)
      ensures |slides| > 0 ==> currentIndex == PreviousIndex(old(currentIndex), |slides|)
      ensures |slides| > 0 ==> shown == if hasDisplay then Some(slides[currentIndex]) else old(shown)
    {
      if |slides| == 0 {
        return;
      }
      currentIndex := Remainder(currentIndex - 1 + |slides|, |slides|);
      UpdateSlide();
    }

    /** Puts the current slide on the display, when there is a display and
        there are slides. */
    method UpdateSlide()
      requires |slides| > 0 ==> 0 <= currentIndex < |slides|
      requires |slides| == 0 ==> currentIndex == 0
      modifies this
      ensures currentIndex == old(currentIndex)
      ensures hasDisplay && |slides| > 0 ==> shown == Some(slides[currentIndex])
      ensures !(hasDisplay && |slides| > 0) ==> shown == old(shown)
    {
      if hasDisplay && |slides| > 0 {
        shown := Some(slides[currentIndex]);
      }
    }
  }

  /** A press of "next" followed by a press of "previous" leaves the show on
      the slide it started from. */
  method NextThenPrevious<S>(show: SlideShow<S>)
    requires show.Valid()
    modifies show
    ensures show.Valid()
    ensures show.currentIndex == old(show.currentIndex)
  {
    show.NextSlide();
    show.PreviousSlide();
    if |show.slides| > 0 {
      NextPreviousInverse(old(show.currentIndex), |show.slides|);
    }
  }
}
