/**
 * The background-music button. One flag says whether the music should be
 * playing; a click flips it, and when the browser refuses to start playback
 * (the `play()` promise is rejected) the flag is forced back to false. The
 * audio element itself is told to play or pause whenever the flag changes.
 */
module Music {

  /** The music does not start by itself. */
  const InitialPlaying := false

  datatype MusicEvent =
    | Click         // the toggle button is pressed
    | PlayRejected  // a `play()` started earlier is rejected

  /** The flag after one event. */
  function Step(isPlaying: bool, e: MusicEvent): bool {
    match e
    case Click => !isPlaying
    case PlayRejected => false
  }

  /** A click flips the flag; a rejected playback leaves the music paused. */
  lemma StepEffect(isPlaying: bool)
    ensures Step(isPlaying, Click) != isPlaying
    ensures Step(Step(isPlaying, Click), Click) == isPlaying
    ensures !Step(isPlaying, PlayRejected)
  {
  }

  /** The flag after a sequence of events, applied in order. */
  function Run(isPlaying: bool, evs: seq<MusicEvent>): bool
    decreases |evs|
  {
    if evs == [] then isPlaying else Step(Run(isPlaying, evs[..|evs| - 1]), evs[|evs| - 1])
  }

  /** The number of clicks since the last rejected playback (or since the start). */
  function ClicksSinceRejection(evs: seq<MusicEvent>): nat
    decreases |evs|
  {
    if evs == [] then 0
    else if evs[|evs| - 1] == PlayRejected then 0
    else ClicksSinceRejection(evs[..|evs| - 1]) + 1
  }

  /** Some playback was rejected along the way. */
  predicate SomeRejection(evs: seq<MusicEvent>) {
    exists i :: 0 <= i < |evs| && evs[i] == PlayRejected
  }

  /**
   * The music is meant to be playing exactly when the clicks since the last
   * rejection, counted from the starting flag if there was none, are odd.
   */
  lemma {:induction false} PlayingIffOddClicks(isPlaying: bool, evs: seq<MusicEvent>)
    ensures Run(isPlaying, evs)
        <==> (if isPlaying && !SomeRejection(evs) then ClicksSinceRejection(evs) % 2 == 0
              else ClicksSinceRejection(evs) % 2 == 1)
    decreases |evs|
  {
    if evs != [] {
      var init := evs[..|evs| - 1];
      PlayingIffOddClicks(isPlaying, init);
      if evs[|evs| - 1] == PlayRejected {
        assert SomeRejection(evs);
      } else {
        assert SomeRejection(evs) <==> SomeRejection(init) by {
          assert forall i :: 0 <= i < |init| ==> init[i] == evs[i];
        }
      }
    }
  }

  /** From the page's start, the music plays exactly after an odd number of clicks since the last rejection. */
  lemma PlayingFromStart(evs: seq<MusicEvent>)
    ensures Run(InitialPlaying, evs) <==> ClicksSinceRejection(evs) % 2 == 1
  {
    PlayingIffOddClicks(InitialPlaying, evs);
  }

  /** What the effect tells the audio element once the flag has its new value. */
  datatype AudioCommand = Play | Pause

  function AudioCommandFor(isPlaying: bool): AudioCommand {
    if isPlaying then Play else Pause
  }

  /** The button's caption. */
  function ButtonLabel(isPlaying: bool): string {
    if isPlaying then "Pausar música" else "Play música"
  }

  /** The caption offers to pause exactly when the audio has been told to play. */
  lemma LabelMatchesAudio(isPlaying: bool)
    ensures ButtonLabel(isPlaying) == "Pausar música" <==> AudioCommandFor(isPlaying) == Play
  {
    if !isPlaying {
      assert ButtonLabel(isPlaying)[1] != "Pausar música"[1];
    }
  }

  // ---------------------------------------------------------------------------
  // The component

  /** `MusicToggle`'s flag and its two updates. */
  class MusicToggle {
    var isPlaying: bool

    constructor ()
      ensures isPlaying == InitialPlaying
    {
      isPlaying := false;
    }

    /** The button's `onClick`. */
    method Click()
      modifies this
      ensures isPlaying == Step(old(isPlaying), MusicEvent.Click)
    {
      isPlaying := !isPlaying;
    }

    /** The `catch` of the `play()` promise. */
    method PlayRejected()
      modifies this
      ensures isPlaying == Step(old(isPlaying), MusicEvent.PlayRejected)
    {
      isPlaying := false;
    }
  }
}
