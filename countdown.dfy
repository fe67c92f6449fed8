/**
 * The countdown to the wedding: the time left until a target instant, split
 * into days, hours, minutes and seconds, and the hook that recomputes it on
 * every tick of a one-second interval.
 *
 * Instants are whole milliseconds since the Unix epoch; the current time is a
 * parameter rather than a read of the clock.
 */
module Countdown {
  import opened Text
  import opened Arith

  const MsPerSecond: int := 1000
  const MsPerMinute: int := 60 * MsPerSecond
  const MsPerHour: int := 60 * MsPerMinute
  const MsPerDay: int := 24 * MsPerHour

  datatype CountdownValue = CountdownValue(days: int, hours: int, minutes: int, seconds: int)

  const Zero := CountdownValue(0, 0, 0, 0)

  /** The number of whole seconds a countdown value stands for. */
  function TotalSeconds(c: CountdownValue): int {
    c.days * 86400 + c.hours * 3600 + c.minutes * 60 + c.seconds
  }

  /** Every field in its natural range: days unbounded, the others a clock face. */
  predicate InRange(c: CountdownValue) {
    && c.days >= 0
    && 0 <= c.hours < 24
    && 0 <= c.minutes < 60
    && 0 <= c.seconds < 60
  }

  /**
   * Splitting a non-negative number of seconds into days, hours, minutes and
   * seconds by repeated division loses nothing.
   */
  lemma MixedRadix(n: nat)
    ensures (n / 86400) * 86400 + ((n / 3600) % 24) * 3600 + ((n / 60) % 60) * 60 + n % 60 == n
  {
    var m := n / 60;
    var h := m / 60;
    assert n == m * 60 + n % 60;
    assert m == h * 60 + m % 60;
    assert h == (h / 24) * 24 + h % 24;
    assert n / 3600 == h;
    assert n / 86400 == h / 24;
  }

  /**
   * The page's `getCountdown(target)` sampled at `nowMs`: all zero once the
   * target has been reached, and otherwise the truncated number of seconds
   * left, each field within its range, with less than one second discarded.
   */
  function CountdownAt(targetMs: int, nowMs: int): (c: CountdownValue)
    ensures targetMs - nowMs <= 0 ==> c == Zero
    ensures targetMs - nowMs > 0 ==> InRange(c)
    ensures targetMs - nowMs > 0 ==> TotalSeconds(c) == (targetMs - nowMs) / 1000
    ensures targetMs - nowMs > 0 ==> 0 <= (targetMs - nowMs) - TotalSeconds(c) * 1000 < 1000
  {
    var total := targetMs - nowMs;
    if total <= 0 then Zero
    else
      Decompose(total);
      CountdownValue(
        total / MsPerDay,
        (total / MsPerHour) % 24,
        (total / MsPerMinute) % 60,
        (total / MsPerSecond) % 60)
  }

  /** The fields `getCountdown` computes for a positive delta are in range and lose less than a second. */
  lemma Decompose(total: int)
    requires total > 0
    ensures var c := CountdownValue(total / MsPerDay, (total / MsPerHour) % 24,
                                    (total / MsPerMinute) % 60, (total / MsPerSecond) % 60);
      && InRange(c)
      && TotalSeconds(c) == total / 1000
      && 0 <= total - TotalSeconds(c) * 1000 < 1000
  {
    var n := total / 1000;
    assert total / MsPerMinute == n / 60 by { DivDiv(total, 1000, 60); }
    assert total / MsPerHour == n / 3600 by { DivDiv(total, 1000, 3600); }
    assert total / MsPerDay == n / 86400 by { DivDiv(total, 1000, 86400); }
    MixedRadix(n);
  }

  /**
   * The decomposition is the only one: any in-range value that stands for the
   * same number of seconds is the one `CountdownAt` returns.
   */
  lemma CountdownUnique(targetMs: int, nowMs: int, c: CountdownValue)
    requires targetMs - nowMs > 0
    requires InRange(c) && TotalSeconds(c) == (targetMs - nowMs) / 1000
    ensures c == CountdownAt(targetMs, nowMs)
  {
    SecondsDigitsDetermined(c, CountdownAt(targetMs, nowMs));
  }

  lemma SecondsDigitsDetermined(c: CountdownValue, d: CountdownValue)
    requires InRange(c) && InRange(d) && TotalSeconds(c) == TotalSeconds(d)
    ensures c == d
  {
    var x := (c.days * 24 + c.hours) * 60 + c.minutes;
    var y := (d.days * 24 + d.hours) * 60 + d.minutes;
    assert TotalSeconds(c) == x * 60 + c.seconds;
    assert TotalSeconds(d) == y * 60 + d.seconds;
    RemainderUnique(x, c.seconds, y, d.seconds, 60);
    var u := c.days * 24 + c.hours;
    var v := d.days * 24 + d.hours;
    RemainderUnique(u, c.minutes, v, d.minutes, 60);
    RemainderUnique(c.days, c.hours, d.days, d.hours, 24);
  }

  /** Two sample instants: 90 seconds before the target, and one day and one second before it. */
  lemma CountdownExamples(targetMs: int)
    ensures CountdownAt(targetMs, targetMs - 90000) == CountdownValue(0, 0, 1, 30)
    ensures CountdownAt(targetMs, targetMs - 86401000) == CountdownValue(1, 0, 0, 1)
  {
  }

  /**
   * The countdown reads all zero exactly when less than one second is left
   * (including when the target has passed).
   */
  lemma CountdownZeroIff(targetMs: int, nowMs: int)
    ensures CountdownAt(targetMs, nowMs) == Zero <==> targetMs - nowMs < 1000
  {
    var total := targetMs - nowMs;
    if total >= 1000 {
      assert TotalSeconds(CountdownAt(targetMs, nowMs)) >= 1;
    }
  }

  /** Sampling later never shows more time left. */
  lemma CountdownNonIncreasing(targetMs: int, earlier: int, later: int)
    requires earlier <= later
    ensures TotalSeconds(CountdownAt(targetMs, later)) <= TotalSeconds(CountdownAt(targetMs, earlier))
  {
  }

  /**
   * One interval tick later the countdown shows exactly one second less,
   * until it rests at zero.
   */
  lemma CountdownTick(targetMs: int, nowMs: int)
    ensures TotalSeconds(CountdownAt(targetMs, nowMs + 1000))
         == if TotalSeconds(CountdownAt(targetMs, nowMs)) > 0
            then TotalSeconds(CountdownAt(targetMs, nowMs)) - 1 else 0
  {
    var total := targetMs - nowMs;
    if total > 1000 {
      assert (total - 1000) / 1000 == total / 1000 - 1;
    }
  }

  /** The four values as the countdown section shows them: each padded to two digits. */
  function Display(c: CountdownValue): (labels: seq<string>)
    ensures |labels| == 4
  {
    [Pad(c.days), Pad(c.hours), Pad(c.minutes), Pad(c.seconds)]
  }

  /**
   * For a value within range, the hours, minutes and seconds are shown as two
   * digits each that read back as the value's fields.
   */
  lemma DisplayDigits(c: CountdownValue)
    requires InRange(c)
    ensures TwoDigits(Display(c)[1], c.hours)
    ensures TwoDigits(Display(c)[2], c.minutes)
    ensures TwoDigits(Display(c)[3], c.seconds)
  {
    var labels := Display(c);
    assert labels[1] == Pad(c.hours) && labels[2] == Pad(c.minutes) && labels[3] == Pad(c.seconds);
    TileDigits(labels, 1, c.hours);
    TileDigits(labels, 2, c.minutes);
    TileDigits(labels, 3, c.seconds);
  }

  /**
   * The days are two digits as well while fewer than 100 are left; from 10
   * on they are the plain decimal, so `padStart` never cuts a longer count.
   */
  lemma DisplayDays(c: CountdownValue)
    requires c.days >= 0
    ensures c.days < 100 ==> TwoDigits(Display(c)[0], c.days)
    ensures c.days >= 10 ==> Display(c)[0] == NatString(c.days)
  {
    var labels := Display(c);
    if c.days < 100 {
      TileDigits(labels, 0, c.days);
    }
    if c.days >= 10 {
      WideTile(labels, 0, c.days);
    }
  }

  lemma TileDigits(labels: seq<string>, k: nat, v: int)
    requires k < |labels| && labels[k] == Pad(v) && 0 <= v < 100
    ensures TwoDigits(labels[k], v)
  {
    PadDigits(v);
  }

  lemma WideTile(labels: seq<string>, k: nat, v: int)
    requires k < |labels| && labels[k] == Pad(v) && v >= 10
    ensures labels[k] == NatString(v)
  {
    PadShape(v);
  }

  /**
   * The `useCountdown` hook: the countdown state of a mounted view, computed
   * when the view mounts and recomputed on every tick of its interval.
   */
  class CountdownClock {
    const targetMs: int
    var timeLeft: CountdownValue

    constructor (targetMs: int, nowMs: int)
      ensures this.targetMs == targetMs
      ensures timeLeft == CountdownAt(targetMs, nowMs)
    {
      this.targetMs := targetMs;
      timeLeft := CountdownAt(targetMs, nowMs);
    }

    /** The interval fires at `nowMs`: the whole state is recomputed from scratch. */
    method Tick(nowMs: int)
      modifies this
      ensures timeLeft == CountdownAt(targetMs, nowMs)
    {
      timeLeft := CountdownAt(targetMs, nowMs);
    }
  }
}
