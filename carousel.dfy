/**
 * The hero carousel of the landing page: four slides, one slide element and one
 * dot element per slide, a cursor `currentIndex`, and one recurring autoplay timer.
 *
 * Slide and dot elements are reduced to their `active` class flag, held in two
 * arrays. The browser's interval table is reduced to the set of live interval
 * handles; `setInterval` hands out a handle that was never used before and
 * `clearInterval` takes one out of the set. Wall-clock time is not modelled: a
 * timer "fires" when the environment calls `TimerFires` with its handle.
 */
module Carousel {
  import opened Wrappers
  import opened Flags

  /** A static slide descriptor; only its position in the list matters to the state machine. */
  datatype Slide = Slide(src: string, alt: string, title: string, text: string, btn: string, link: string)

  /** The fixed slide list the carousel renders. */
  const HeroSlides: seq<Slide> := [
    Slide("images/travel2.jpg", "Travel Insurance", "Travel with Confidence",
          "Explore the world safely with our comprehensive travel insurance.", "View Details", "#products"),
    Slide("images/fire.webp", "Fire Insurance", "Fire Protection Plans",
          "Protect your home and business from unexpected fire damage.", "View Details", "#products"),
    Slide("images/car.jpg", "Car Insurance", "Drive Without Worries",
          "Enjoy every ride with full car insurance coverage.", "View Details", "#quote"),
    Slide("images/marine.webp", "Marine Insurance", "Marine Cargo Protection",
          "Ensure your cargo and vessel are always secure.", "View Details", "#products")
  ]

  /** Autoplay period in milliseconds (time itself is not modelled). */
  const AutoPlayDelay: nat := 3000

  /** Index of the slide after `i` in a ring of `n` slides. */
  function NextIndex(i: nat, n: nat): (r: nat)
    requires i < n
    ensures r < n
    ensures i == n - 1 ==> r == 0
    ensures i < n - 1 ==> r == i + 1
  {
    (i + 1) % n
  }

  /** Index of the slide before `i` in a ring of `n` slides. */
  function PrevIndex(i: nat, n: nat): (r: nat)
    requires i < n
    ensures r < n
    ensures i == 0 ==> r == n - 1
    ensures 0 < i ==> r == i - 1
  {
    (i - 1 + n) % n
  }

  /** Going forward then back, or back then forward, returns to the same slide. */
  lemma PrevNextInverse(i: nat, n: nat)
    requires i < n
    ensures PrevIndex(NextIndex(i, n), n) == i
    ensures NextIndex(PrevIndex(i, n), n) == i
  {
  }

  /** The slide reached from `i` after `k` autoplay ticks. */
  function Advance(i: nat, k: nat, n: nat): (r: nat)
    requires i < n
    ensures r < n
  {
    if k == 0 then i else NextIndex(Advance(i, k - 1, n), n)
  }

  /** Ticks visit the slides in ring order: after `k` ticks the cursor is at `(i + k) mod n`. */
  lemma {:induction false} AdvanceIsModular(i: nat, k: nat, n: nat)
    requires i < n
    ensures Advance(i, k, n) == (i + k) % n
  {
    if k > 0 {
      AdvanceIsModular(i, k - 1, n);
      ModStep(i + k - 1, n);
    }
  }

  /** Adding one to a number moves its remainder one step round the ring. */
  lemma ModStep(x: nat, n: nat)
    requires 0 < n
    ensures (x + 1) % n == if x % n == n - 1 then 0 else x % n + 1
  {
    var q, m := x / n, x % n;
    assert x == q * n + m;
    if m == n - 1 {
      assert x + 1 == (q + 1) * n + 0;
      ModOfOffset(q + 1, 0, n);
    } else {
      assert x + 1 == q * n + (m + 1);
      ModOfOffset(q, m + 1, n);
    }
  }

  /** Euclidean division is unique: `q * n + r` with `r < n` leaves remainder `r`. */
  lemma ModOfOffset(q: nat, r: nat, n: nat)
    requires r < n
    ensures (q * n + r) % n == r
  {
    var x := q * n + r;
    var d := q - x / n;
    assert x == (x / n) * n + x % n;
    assert d * n == x % n - r;
    if d >= 1 {
      MulAtLeast(d, n);
    } else if d <= -1 {
      MulAtLeast(-d, n);
    }
  }

  lemma MulAtLeast(d: int, n: nat)
    requires d >= 1
    ensures d * n >= n
  {
  }

  /** A full round of `n` ticks brings the carousel back to the slide it started from. */
  lemma FullRoundReturns(i: nat, n: nat)
    requires i < n
    ensures Advance(i, n, n) == i
  {
    AdvanceIsModular(i, n, n);
    ModOfOffset(1, i, n);
  }

  class HeroSlider {
    /** The slide list, fixed at construction. */
    const slides: seq<Slide>
    /** False when `#heroSlider` or `#dots` is missing: then init did nothing. */
    var mounted: bool
    /** `active` flag of each slide element. */
    var slideActive: array<bool>
    /** `active` flag of each dot element. */
    var dotActive: array<bool>
    var currentIndex: nat
    /** The stored `autoPlayInterval` handle; None is the initial null. */
    var autoPlayInterval: Option<nat>
    /** Interval handles the browser will still run. */
    var liveTimers: set<nat>
    /** The handle the next `setInterval` returns; every handle ever issued is below it. */
    var nextHandle: nat

    /**
     * Object invariant. Once mounted, exactly one slide and exactly one dot are
     * active, both at `currentIndex`, and the only live timer is the stored one.
     * Unmounted, nothing was created or armed.
     */
    ghost predicate Valid()
      reads this, slideActive, dotActive
    {
      && slides == HeroSlides
      && slideActive != dotActive
      && (forall h :: h in liveTimers ==> h < nextHandle)
      && (if mounted then
            && slideActive.Length == |slides| && dotActive.Length == |slides|
            && ActiveExactlyAt(slideActive[..], currentIndex)
            && ActiveExactlyAt(dotActive[..], currentIndex)
            && autoPlayInterval.Some?
            && liveTimers == {autoPlayInterval.value}
          else
            && slideActive.Length == 0 && dotActive.Length == 0
            && currentIndex == 0
            && autoPlayInterval == None
            && liveTimers == {})
    }

    /** Counted, the invariant says one slide and one dot are active once mounted, none before. */
    lemma ValidCountsActive()
      requires Valid()
      ensures mounted ==> CountActive(slideActive[..]) == 1 && CountActive(dotActive[..]) == 1
      ensures !mounted ==> CountActive(slideActive[..]) == 0 && CountActive(dotActive[..]) == 0
    {
      if mounted {
        ActiveExactlyAtCountsOne(slideActive[..], currentIndex);
        ActiveExactlyAtCountsOne(dotActive[..], currentIndex);
      }
    }

    /**
     * Builds the carousel and runs init. `sliderPresent` and `dotsPresent` say
     * whether the page has the `#heroSlider` and `#dots` containers.
     */
    constructor (sliderPresent: bool, dotsPresent: bool)
      ensures Valid() && fresh(slideActive) && fresh(dotActive)
      ensures mounted <==> sliderPresent && dotsPresent
      ensures mounted ==> currentIndex == 0 && |liveTimers| == 1
      ensures !mounted ==> liveTimers == {} && autoPlayInterval == None
    {
      slides := HeroSlides;
      mounted := false;
      slideActive := new bool[0];
      dotActive := new bool[0];
      currentIndex := 0;
      autoPlayInterval := None;
      liveTimers := {};
      nextHandle := 0;
      new;
      Init(sliderPresent, dotsPresent);
    }

    /** Returns early when a container is missing; otherwise renders, shows slide 0 and arms autoplay. */
    method Init(sliderPresent: bool, dotsPresent: bool)
      requires Valid() && !mounted
      modifies this
      ensures Valid()
      ensures mounted <==> sliderPresent && dotsPresent
      ensures !mounted ==> unchanged(this)
      ensures mounted ==> currentIndex == 0 && liveTimers == {old(nextHandle)}
      ensures mounted ==> fresh(slideActive) && fresh(dotActive)
    {
      if !sliderPresent || !dotsPresent {
        return;
      }
      CreateSlides();
      CreateDots();
      ShowSlide(0);
      StartAutoPlay();
      mounted := true;
    }

    /** One slide element per slide, the first one created active. */
    method CreateSlides()
      modifies this`slideActive
      ensures fresh(slideActive) && slideActive.Length == |slides|
      ensures forall k :: 0 <= k < slideActive.Length ==> (slideActive[k] <==> k == 0)
    {
      slideActive := new bool[|slides|](k => k == 0);
    }

    /** One dot element per slide, the first one created active. */
    method CreateDots()
      modifies this`dotActive
      ensures fresh(dotActive) && dotActive.Length == |slides|
      ensures forall k :: 0 <= k < dotActive.Length ==> (dotActive[k] <==> k == 0)
    {
      dotActive := new bool[|slides|](k => k == 0);
    }

    /** Clears every slide and dot flag, then sets the one at `index`. */
    method ShowSlide(index: nat)
      requires slideActive.Length == |slides| && dotActive.Length == |slides|
      requires slideActive != dotActive
      requires index < |slides|
      modifies this`currentIndex, slideActive, dotActive
      ensures currentIndex == index
      ensures ActiveExactlyAt(slideActive[..], index)
      ensures ActiveExactlyAt(dotActive[..], index)
      ensures old(ActiveExactlyAt(slideActive[..], index)) ==> slideActive[..] == old(slideActive[..])
      ensures old(ActiveExactlyAt(dotActive[..], index)) ==> dotActive[..] == old(dotActive[..])
    {
      ghost var slidesBefore, dotsBefore := slideActive[..], dotActive[..];
      var k := 0;
      while k < slideActive.Length
        invariant 0 <= k <= slideActive.Length
        invariant forall j :: 0 <= j < k ==> !slideActive[j]
      {
        slideActive[k] := false;
        k := k + 1;
      }
      k := 0;
      while k < dotActive.Length
        invariant 0 <= k <= dotActive.Length
        invariant forall j :: 0 <= j < k ==> !dotActive[j]
        invariant forall j :: 0 <= j < slideActive.Length ==> !slideActive[j]
      {
        dotActive[k] := false;
        k := k + 1;
      }
      slideActive[index] := true;
      dotActive[index] := true;
      currentIndex := index;
      if ActiveExactlyAt(slidesBefore, index) {
        ActiveExactlyAtUnique(slideActive[..], slidesBefore, index);
      }
      if ActiveExactlyAt(dotsBefore, index) {
        ActiveExactlyAtUnique(dotActive[..], dotsBefore, index);
      }
    }

    /** Shows the slide after the current one, wrapping from the last to the first. */
    method NextSlide()
      requires Valid() && mounted
      modifies this`currentIndex, slideActive, dotActive
      ensures Valid()
      ensures currentIndex == NextIndex(old(currentIndex), |slides|)
    {
      var next := (currentIndex + 1) % |slides|;
      ShowSlide(next);
    }

    /** Shows the slide before the current one, wrapping from the first to the last. */
    method PrevSlide()
      requires Valid() && mounted
      modifies this`currentIndex, slideActive, dotActive
      ensures Valid()
      ensures currentIndex == PrevIndex(old(currentIndex), |slides|)
    {
      var prev := (currentIndex - 1 + |slides|) % |slides|;
      ShowSlide(prev);
    }

    /** `setInterval`: arms a recurring timer under a handle never issued before and stores it. */
    method StartAutoPlay()
      requires forall h :: h in liveTimers ==> h < nextHandle
      modifies this`autoPlayInterval, this`liveTimers, this`nextHandle
      ensures old(nextHandle) !in old(liveTimers)
      ensures liveTimers == old(liveTimers) + {old(nextHandle)}
      ensures autoPlayInterval == Some(old(nextHandle))
      ensures forall h :: h in liveTimers ==> h < nextHandle
    {
      var handle := nextHandle;
      nextHandle := nextHandle + 1;
      liveTimers := liveTimers + {handle};
      autoPlayInterval := Some(handle);
    }

    /** `clearInterval`: stops the timer with that handle; a null handle is ignored. */
    method ClearInterval(handle: Option<nat>)
      modifies this`liveTimers
      ensures liveTimers == if handle.Some? then old(liveTimers) - {handle.value} else old(liveTimers)
    {
      if handle.Some? {
        liveTimers := liveTimers - {handle.value};
      }
    }

    /** Cancels the stored timer before arming a fresh one, so only one is ever live. */
    method ResetAutoPlay()
      requires Valid() && mounted
      modifies this`autoPlayInterval, this`liveTimers, this`nextHandle
      ensures Valid()
      ensures old(autoPlayInterval.value) !in liveTimers
      ensures liveTimers == {old(nextHandle)}
    {
      ClearInterval(autoPlayInterval);
      StartAutoPlay();
    }

    /** A click on dot `i`: shows slide `i`, then restarts autoplay. */
    method DotClick(i: nat)
      requires Valid() && mounted
      requires i < |slides|
      modifies this, slideActive, dotActive
      ensures Valid() && mounted
      ensures slideActive == old(slideActive) && dotActive == old(dotActive)
      ensures currentIndex == i
      ensures liveTimers == {old(nextHandle)}
      ensures i == old(currentIndex) ==> slideActive[..] == old(slideActive[..]) && dotActive[..] == old(dotActive[..])
    {
      ShowSlide(i);
      ResetAutoPlay();
    }

    /** A click on the "next" button: next slide, then restart autoplay. */
    method NextButtonClick()
      requires Valid() && mounted
      modifies this, slideActive, dotActive
      ensures Valid() && mounted
      ensures slideActive == old(slideActive) && dotActive == old(dotActive)
      ensures currentIndex == NextIndex(old(currentIndex), |slides|)
      ensures liveTimers == {old(nextHandle)}
    {
      NextSlide();
      ResetAutoPlay();
    }

    /** A click on the "previous" button: previous slide, then restart autoplay. */
    method PrevButtonClick()
      requires Valid() && mounted
      modifies this, slideActive, dotActive
      ensures Valid() && mounted
      ensures slideActive == old(slideActive) && dotActive == old(dotActive)
      ensures currentIndex == PrevIndex(old(currentIndex), |slides|)
      ensures liveTimers == {old(nextHandle)}
    {
      PrevSlide();
      ResetAutoPlay();
    }

    /**
     * The browser runs the callback of interval `handle`: a live one advances one
     * slide; a cleared one never runs, so nothing changes.
     */
    method TimerFires(handle: nat)
      requires Valid()
      modifies this`currentIndex, slideActive, dotActive
      ensures Valid()
      ensures currentIndex == if handle in liveTimers then NextIndex(old(currentIndex), |slides|) else old(currentIndex)
      ensures handle !in liveTimers ==> slideActive[..] == old(slideActive[..]) && dotActive[..] == old(dotActive[..])
    {
      if handle in liveTimers {
        NextSlide();
      }
    }
  }

  /**
   * Four slides: autoplay moves 0 to 1, "previous" moves back to 0 and replaces
   * the timer; the replaced timer no longer runs and the new one moves to 1.
   */
  method AutoplayAfterManualNavigation() {
    var slider := new HeroSlider(true, true);
    var first := slider.autoPlayInterval.value;
    slider.TimerFires(first);
    assert slider.currentIndex == 1;
    slider.PrevButtonClick();
    assert slider.currentIndex == 0;
    slider.TimerFires(first);
    assert slider.currentIndex == 0;
    var second := slider.autoPlayInterval.value;
    assert second != first;
    slider.TimerFires(second);
    assert slider.currentIndex == 1;
  }
}
