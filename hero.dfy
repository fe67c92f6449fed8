/**
 * The cover section's hidden greeting: three taps on the background in quick
 * succession bring it up. A tap on a button or a link inside the section does
 * not count. Each change of a non-zero tap count arms a 500 ms timer (the
 * previous one is cleared), and when that timer fires the count goes back to
 * zero. So a timer is pending exactly when the count is not zero, and its
 * firing is the event `TapTimeout`.
 */
module Hero {

  datatype TapState = TapState(tapCount: int, showEasterEgg: bool)

  /** The state of a freshly mounted section. */
  const Initial := TapState(0, false)

  datatype TapEvent =
    | Tap(onControl: bool)  // a click in the section; `onControl` when it lands inside a button or a link
    | TapTimeout            // the pending 500 ms timer fires

  /** The tap count stays within 0..2: the third tap resets it. */
  predicate CountInRange(s: TapState) {
    0 <= s.tapCount <= 2
  }

  /** The section's reaction to one event: `handleTap` or the timer's callback. */
  function Step(s: TapState, e: TapEvent): (t: TapState)
    ensures CountInRange(s) ==> CountInRange(t)
    ensures s.showEasterEgg ==> t.showEasterEgg
  {
    match e
    case Tap(onControl) =>
      if onControl then s
      else
        var next := s.tapCount + 1;
        if next >= 3 then TapState(0, true) else TapState(next, s.showEasterEgg)
    case TapTimeout => s.(tapCount := 0)
  }

  /** A tap inside a button or a link changes nothing. */
  lemma ControlTapIgnored(s: TapState)
    ensures Step(s, Tap(true)) == s
  {
  }

  /** The timer only clears the count; the greeting stays as it was. */
  lemma TimeoutClearsCountOnly(s: TapState)
    ensures Step(s, TapTimeout).tapCount == 0
    ensures Step(s, TapTimeout).showEasterEgg == s.showEasterEgg
  {
  }

  /** The third background tap shows the greeting and resets the count. */
  lemma ThirdTapShowsEgg(s: TapState)
    requires s.tapCount == 2
    ensures Step(s, Tap(false)) == TapState(0, true)
  {
  }

  /** A background tap that is not the third one only adds one to the count. */
  lemma EarlierTapCounts(s: TapState)
    requires 0 <= s.tapCount < 2
    ensures Step(s, Tap(false)) == s.(tapCount := s.tapCount + 1)
  {
  }

  /** The state after a sequence of events, applied in order. */
  function Run(s: TapState, evs: seq<TapEvent>): (t: TapState)
    ensures CountInRange(s) ==> CountInRange(t)
    ensures s.showEasterEgg ==> t.showEasterEgg
    decreases |evs|
  {
    if evs == [] then s else Step(Run(s, evs[..|evs| - 1]), evs[|evs| - 1])
  }

  /** Running two sequences one after the other is running their concatenation. */
  lemma {:induction false} RunAppend(s: TapState, xs: seq<TapEvent>, ys: seq<TapEvent>)
    ensures Run(s, xs + ys) == Run(Run(s, xs), ys)
    decreases |ys|
  {
    if ys == [] {
      assert xs + ys == xs;
    } else {
      var zs := xs + ys;
      assert zs[..|zs| - 1] == xs + ys[..|ys| - 1];
      assert zs[|zs| - 1] == ys[|ys| - 1];
      RunAppend(s, xs, ys[..|ys| - 1]);
    }
  }

  /** Once shown, the greeting stays shown whatever happens later. */
  lemma EggStaysShown(s: TapState, xs: seq<TapEvent>, ys: seq<TapEvent>)
    requires Run(s, xs).showEasterEgg
    ensures Run(s, xs + ys).showEasterEgg
  {
    RunAppend(s, xs, ys);
  }

  // ---------------------------------------------------------------------------
  // When the greeting appears

  /** The number of background taps in a sequence of events. */
  function BackgroundTaps(evs: seq<TapEvent>): nat
    decreases |evs|
  {
    if evs == [] then 0
    else BackgroundTaps(evs[..|evs| - 1]) + (if evs[|evs| - 1] == Tap(false) then 1 else 0)
  }

  /** No timer fires anywhere in the sequence. */
  predicate NoTimeout(evs: seq<TapEvent>) {
    forall i :: 0 <= i < |evs| ==> evs[i] != TapTimeout
  }

  /** The number of background taps since the last time the timer fired. */
  function TapsSinceTimeout(evs: seq<TapEvent>): nat
    decreases |evs|
  {
    if evs == [] then 0
    else if evs[|evs| - 1] == TapTimeout then 0
    else TapsSinceTimeout(evs[..|evs| - 1]) + (if evs[|evs| - 1] == Tap(false) then 1 else 0)
  }

  /** Somewhere in the sequence, three background taps with no timer firing between them. */
  predicate HasTripleTap(evs: seq<TapEvent>) {
    exists a, b :: 0 <= a <= b <= |evs| && NoTimeout(evs[a..b]) && BackgroundTaps(evs[a..b]) >= 3
  }

  /** While the greeting is hidden, the count is the number of background taps since the last timeout. */
  lemma {:induction false} CountTracksTaps(evs: seq<TapEvent>)
    ensures !Run(Initial, evs).showEasterEgg ==> Run(Initial, evs).tapCount == TapsSinceTimeout(evs)
    decreases |evs|
  {
    if evs != [] {
      CountTracksTaps(evs[..|evs| - 1]);
    }
  }

  /** The taps since the last timeout form a stretch with no timeout at the end of the sequence. */
  lemma {:induction false} TrailingStretch(evs: seq<TapEvent>) returns (a: nat)
    ensures a <= |evs| && NoTimeout(evs[a..]) && BackgroundTaps(evs[a..]) == TapsSinceTimeout(evs)
    decreases |evs|
  {
    if evs == [] {
      a := 0;
    } else if evs[|evs| - 1] == TapTimeout {
      a := |evs|;
    } else {
      var init := evs[..|evs| - 1];
      a := TrailingStretch(init);
      var w := evs[a..];
      assert w[..|w| - 1] == init[a..];
      assert w[|w| - 1] == evs[|evs| - 1];
      assert forall i :: 0 <= i < |w| - 1 ==> w[i] == init[a..][i];
    }
  }

  /** A stretch without timeouts that ends here has no more taps than the count since the last timeout. */
  lemma {:induction false} StretchBound(evs: seq<TapEvent>, a: nat)
    requires a <= |evs| && NoTimeout(evs[a..])
    ensures BackgroundTaps(evs[a..]) <= TapsSinceTimeout(evs)
    decreases |evs|
  {
    if a < |evs| {
      var init := evs[..|evs| - 1];
      var w := evs[a..];
      assert w[..|w| - 1] == init[a..];
      assert w[|w| - 1] == evs[|evs| - 1];
      assert NoTimeout(init[a..]) by {
        assert forall i :: 0 <= i < |init[a..]| ==> init[a..][i] == w[i];
      }
      StretchBound(init, a);
    }
  }

  /**
   * Starting from a freshly mounted section, the greeting is shown exactly
   * when, somewhere in what happened, three background taps came with no
   * timer firing between them.
   */
  lemma EggIffTripleTap(evs: seq<TapEvent>)
    ensures Run(Initial, evs).showEasterEgg <==> HasTripleTap(evs)
  {
    if HasTripleTap(evs) {
      var a, b :| 0 <= a <= b <= |evs| && NoTimeout(evs[a..b]) && BackgroundTaps(evs[a..b]) >= 3;
      TripleTapShowsEgg(evs, a, b);
    }
    if Run(Initial, evs).showEasterEgg {
      EggHasTripleTap(evs);
    }
  }

  lemma TripleTapShowsEgg(evs: seq<TapEvent>, a: nat, b: nat)
    requires a <= b <= |evs| && NoTimeout(evs[a..b]) && BackgroundTaps(evs[a..b]) >= 3
    ensures Run(Initial, evs).showEasterEgg
  {
    var pre := evs[..b];
    assert pre[a..] == evs[a..b];
    StretchBound(pre, a);
    CountTracksTaps(pre);
    assert Run(Initial, pre).showEasterEgg;
    EggStaysShown(Initial, pre, evs[b..]);
    assert pre + evs[b..] == evs;
  }

  lemma {:induction false} EggHasTripleTap(evs: seq<TapEvent>)
    requires Run(Initial, evs).showEasterEgg
    ensures HasTripleTap(evs)
    decreases |evs|
  {
    var init := evs[..|evs| - 1];
    if Run(Initial, init).showEasterEgg {
      EggHasTripleTap(init);
      var a, b :| 0 <= a <= b <= |init| && NoTimeout(init[a..b]) && BackgroundTaps(init[a..b]) >= 3;
      assert evs[a..b] == init[a..b];
    } else {
      CountTracksTaps(init);
      var a := TrailingStretch(init);
      var w := evs[a..];
      assert w[..|w| - 1] == init[a..];
      assert w[|w| - 1] == evs[|evs| - 1] == Tap(false);
      assert forall i :: 0 <= i < |w| - 1 ==> w[i] == init[a..][i];
      assert NoTimeout(evs[a..|evs|]) && BackgroundTaps(evs[a..|evs|]) >= 3 by {
        assert evs[a..|evs|] == w;
      }
    }
  }

  // ---------------------------------------------------------------------------
  // The component

  /** `HeroSection`'s state and its two handlers. */
  class HeroSection {
    var tapCount: int
    var showEasterEgg: bool

    function State(): TapState
      reads this
    {
      TapState(tapCount, showEasterEgg)
    }

    constructor ()
      ensures State() == Initial
    {
      tapCount := 0;
      showEasterEgg := false;
    }

    /** `handleTap`: a click somewhere in the section. */
    method HandleTap(onControl: bool)
      modifies this
      ensures State() == Step(old(State()), Tap(onControl))
    {
      if onControl {
        return;
      }
      var next := tapCount + 1;
      if next >= 3 {
        showEasterEgg := true;
        tapCount := 0;
      } else {
        tapCount := next;
      }
    }

    /** The pending timer's callback. */
    method TapTimeout()
      modifies this
      ensures State() == Step(old(State()), TapEvent.TapTimeout)
    {
      tapCount := 0;
    }
  }
}
