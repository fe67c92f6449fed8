# Wedding invitation page: a verified model of its logic

The invitation is one client-side page (`src/app/page.tsx`). Most of it is
decoration. This project models the parts of it that compute something:

- **The countdown** (`getCountdown`, `useCountdown`). It takes the
  milliseconds left until the event and splits them into days, hours,
  minutes and seconds, recomputing on every tick of a one-second interval.
  The current time is a parameter (`nowMs`) instead of `Date.now()`, and
  each interval firing is one call of `CountdownClock.Tick`.
- **The "add to calendar" link** (`buildICSLink`). `pad` and `formatDate`
  write a UTC instant in the basic DATE-TIME form of RFC 5545
  (section 3.3.5), with the seconds written as a literal `00`. The fixed
  VCALENDAR/VEVENT template is then trimmed and wrapped in a
  `data:text/calendar` URI (RFC 2397) by `encodeURIComponent`, which is
  modelled in full (UTF-8 percent-encoding), together with a decoder
  that proves the encoding loses nothing. The text keeps the page's two
  departures from RFC 5545:
  - lines end in a bare line feed, not CRLF (section 3.1);
  - the commas in the LOCATION value are not escaped (section 3.3.11).
- **Three small state machines.** Each is a pure `Step` function over its
  state (a record, or for the music its single flag), `Run` over a sequence of events, and a class whose
  handlers are proved to perform exactly `Step`. Timers are explicit
  events, not time:
  - the cover's hidden greeting: three background taps, with a 500 ms
    reset timer;
  - the RSVP form: the form data, the idle/sending/done status, and the
    1200 ms placeholder submission timers that are still pending;
  - the background-music flag: a click toggles it, and a rejected
    `play()` forces it off.

Modules and files:

- `wrappers.dfy`: `Option`.
- `arith.dfy`: division facts.
- `text.dfy`: decimal rendering, `padStart`, line joining/splitting, `trim`.
- `countdown.dfy`: the countdown and its hook.
- `dateformat.dfy`: `formatDate` and a reader for its output.
- `uri.dfy`: `encodeURIComponent` and `decodeURIComponent`.
- `calendar.dfy`: the iCalendar text and the link.
- `hero.dfy`, `rsvp.dfy`, `music.dfy`: the state machines.

Three places where the code departs from RFC 5545 or from what its
controls suggest. The model follows the code in each:

- **Seconds in timestamps.** Section 3.3.5 of RFC 5545 gives a DATE-TIME
  value real two-digit seconds. `formatDate` (lines 107-108) always writes
  `00` for them. So two exports are equal exactly when their instants fall
  in the same UTC minute (`Calendar.IcsTextSameMinute`).
- **Commas in LOCATION.** Section 3.3.11 of RFC 5545 requires a comma in a
  TEXT value to be escaped as `\,`. The LOCATION line (line 120) holds bare
  commas (`Calendar.LocationCommaUnescaped`).
- **Resubmission and timers.** The submit button is disabled only while the
  status is sending (line 657). A form that is done can be sent again, and
  it goes back to sending (lines 596-599). The 1200 ms timer (lines 601-603)
  is never cleared. Because the disabled button stops a second submission
  while one is under way, at most one timer is pending at a time, and one
  is pending exactly while the form is sending (`Rsvp.AtMostOneTimer`).

## Model

| member | source | states |
|---|---|---|
| Countdown.CountdownAt | src/app/page.tsx:44-56 | Once the target has been reached (`total <= 0`), every field is zero. Otherwise: days is non-negative, hours is below 24, and minutes and seconds are below 60. The fields reassemble to exactly `total div 1000` seconds, so less than one second is dropped. |
| Countdown.CountdownUnique | src/app/page.tsx:50-55 | No other in-range value reassembles to the same number of seconds, so the decomposition is the unique mixed-radix one. |
| Countdown.CountdownExamples | src/app/page.tsx:44-56 | 90 000 ms before the target gives 0 d 0 h 1 min 30 s. 86 401 000 ms before it gives 1 d 0 h 0 min 1 s. |
| Countdown.CountdownZeroIff | src/app/page.tsx:45-55 | The countdown reads all zero exactly when less than one second is left, including after the target has passed. |
| Countdown.CountdownNonIncreasing | src/app/page.tsx:45-55 | A later sample never shows more time left. |
| Countdown.CountdownTick | src/app/page.tsx:63-66 | One interval tick (1000 ms) later, the countdown shows exactly one second less, until it rests at zero. |
| Countdown.Decompose | src/app/page.tsx:50-53 | For positive `total`, the four divisions give an in-range value that reassembles to `total div 1000` seconds, with less than one second dropped. |
| Countdown.Display | src/app/page.tsx:338-343 | The four tiles, one per field. The contract states there are four; what each shows is stated by `DisplayDigits` and `DisplayDays`. |
| Countdown.DisplayDigits | src/app/page.tsx:338-343 | For an in-range value, the hours, minutes and seconds tiles (line 370) each show two decimal digits that read back as that field. |
| Countdown.DisplayDays | src/app/page.tsx:338-343 | The days tile (line 370) shows two digits reading back as the days while they are below 100, and the plain decimal of the days from 10 on. |
| Countdown.CountdownClock.constructor | src/app/page.tsx:58-61 | The hook's initial state is the countdown at mount time. |
| Countdown.CountdownClock.Tick | src/app/page.tsx:63-66 | A tick replaces the whole state with the countdown sampled at the tick's instant. |
| Text.Pad | src/app/page.tsx:106 | Definition, no contract of its own: `padStart(2, "0")` of the decimal. Its properties are stated by `Text.PadShape`. |
| Text.PadShape | src/app/page.tsx:106 | `pad(v)` is "0" followed by the digit when v is in 0..9. From 10 on, it is the plain decimal. Within 0..99 it is two digits that read back as v. |
| Text.DigitsValueOfNatString | src/app/page.tsx:106 | The decimal rendering of a non-negative integer reads back as the same number. |
| Text.TrimStart | src/app/page.tsx:124 | The leading half of `trim`: the result is a suffix of the input, the part dropped is all JavaScript whitespace, and the result does not begin with whitespace. |
| Text.TrimEnd | src/app/page.tsx:124 | The trailing half of `trim`: the result is a prefix of the input, the part dropped is all whitespace, and the result does not end with whitespace. |
| Text.Trim | src/app/page.tsx:124 | Definition, no contract of its own: the trailing half of `trim` after the leading half. Its properties are stated by `Text.TrimStart`, `Text.TrimEnd` and `Text.TrimFramed`. |
| Text.TrimFramed | src/app/page.tsx:110-124 | A body that starts and ends with non-whitespace, framed by whitespace on both sides, trims to exactly that body. |
| Text.SplitJoinLines | src/app/page.tsx:110-124 | Lines that hold no line feed, joined with line feeds, split back into the same lines. |
| Text.JoinSplitLines | src/app/page.tsx:110-124 | Splitting any text on line feeds and joining the pieces gives the text back. |
| DateFormat.FormatDate | src/app/page.tsx:107-108 | Definition, no contract of its own. Its properties are stated by `FormatDateShape`, `ParseFormatDate` and `FormatDateSameMinute`. |
| DateFormat.FormatDateShape | src/app/page.tsx:106-108 | For a well-formed instant, `formatDate` returns 16 characters, in order: the year; the month counted from 1; the day; 'T'; the hour; the minute; and "00Z", whatever the seconds were. Each field after the year is padded to two digits. |
| DateFormat.ParseFormatDate | src/app/page.tsx:107-108 | Reading back what `formatDate` wrote gives the instant to the minute. |
| DateFormat.FormatDateSameMinute | src/app/page.tsx:107-108 | Two well-formed instants format alike if and only if they fall in the same minute. |
| DateFormat.EventTimestamps | src/app/page.tsx:117-118 | The event's UTC start and end (2026-01-05 23:00Z and 2026-01-06 07:00Z, from lines 18-19) format as `20260105T230000Z` and `20260106T070000Z`. |
| DateFormat.FormatDatePlain | src/app/page.tsx:107-108 | A formatted date holds no line feed or carriage return. |
| Calendar.ContentLines | src/app/page.tsx:110-124 | Definition, no contract of its own: the 13 content lines with the three timestamps in their holes. Their properties are stated by `TemplateTrimmed` and `IcsTextLines`. |
| Calendar.Template | src/app/page.tsx:110-124 | Definition, no contract of its own: the template literal, one line feed before and after the content lines. `TemplateTrimmed` states what trimming it gives. |
| Calendar.IcsText | src/app/page.tsx:110-124 | Definition, no contract of its own. Its properties are stated by `IcsTextLines` and `IcsTextSameMinute`. |
| Calendar.ConstantsPlain | src/app/page.tsx:113-121 | The product identifier, UID, summary, location name and address, and the description each fit on one line. |
| Calendar.TemplateTrimmed | src/app/page.tsx:110-124 | With one-line values in its three holes, the trimmed template is exactly the 13 content lines joined by bare line feeds. Splitting it on line feeds gives those lines back, and it holds no carriage return. |
| Calendar.IcsTextLines | src/app/page.tsx:110-124 | The calendar text is the 13 lines BEGIN:VCALENDAR … END:VCALENDAR joined by "\n". It has no line break at either end and no carriage return anywhere, and splitting it on "\n" gives the lines back. |
| Calendar.IcsTextSameMinute | src/app/page.tsx:115-118 | Two builds give the same text if and only if their DTSTAMP instants fall in the same UTC minute. The UID and the event dates are fixed. |
| Calendar.LocationCommaUnescaped | src/app/page.tsx:120 | The LOCATION line contains a comma with no backslash before it. |
| Calendar.IcsLink | src/app/page.tsx:126 | Definition, no contract of its own. Its properties are stated by `IcsLinkShape` and `IcsLinkSameMinute`. |
| Calendar.IcsLinkShape | src/app/page.tsx:126 | The link starts with `data:text/calendar;charset=utf-8,`. The rest holds only unreserved characters and '%', and it decodes back to the calendar text. |
| Calendar.IcsLinkSameMinute | src/app/page.tsx:105-127 | Two links are equal if and only if their build instants fall in the same UTC minute. |
| UriEncoding.EncodeUriComponent | src/app/page.tsx:126 | The encoded text holds only unreserved characters and '%'. |
| UriEncoding.DecodeEncode | src/app/page.tsx:126 | Decoding the encoding of any string gives the string back, so the encoding is injective. |
| UriEncoding.Utf8RoundTrip | src/app/page.tsx:126 | The UTF-8 bytes the encoder writes for a character decode back to that character. |
| UriEncoding.EncodeUnreserved | src/app/page.tsx:126 | A string of unreserved characters is its own encoding. |
| UriEncoding.EncodeAppend | src/app/page.tsx:126 | Encoding distributes over concatenation, one character at a time. |
| Hero.Step | src/app/page.tsx:228-246 | A tap or the reset timer keeps the tap count within 0..2, and never hides the greeting once it is shown. |
| Hero.ControlTapIgnored | src/app/page.tsx:235-237 | A click inside a button or a link changes nothing. |
| Hero.TimeoutClearsCountOnly | src/app/page.tsx:230 | The reset timer sets the count to zero and leaves the greeting as it was. |
| Hero.ThirdTapShowsEgg | src/app/page.tsx:238-243 | The third background tap shows the greeting and resets the count to zero. |
| Hero.EarlierTapCounts | src/app/page.tsx:238-245 | A background tap that is not the third one only adds one to the count. |
| Hero.Run | src/app/page.tsx:225-246 | Any sequence of events keeps the count within 0..2 and keeps a shown greeting shown. |
| Hero.EggStaysShown | src/app/page.tsx:241 | Once shown, the greeting stays shown whatever happens later. |
| Hero.CountTracksTaps | src/app/page.tsx:228-245 | While the greeting is hidden, the count is the number of background taps since the timer last fired. |
| Hero.EggIffTripleTap | src/app/page.tsx:225-246 | From a fresh section, the greeting is shown if and only if, somewhere in what happened, three background taps came with no timer firing between them. |
| Hero.HeroSection.constructor | src/app/page.tsx:225-226 | The section mounts with count 0 and the greeting hidden. |
| Hero.HeroSection.HandleTap | src/app/page.tsx:234-246 | `handleTap` performs exactly one tap step. |
| Hero.HeroSection.TapTimeout | src/app/page.tsx:228-232 | The timer callback performs exactly one timeout step. |
| Rsvp.WithField | src/app/page.tsx:592-593 | The field named by the input reads back as the new value, and every other field is unchanged. |
| Rsvp.LabelMatchesDisabled | src/app/page.tsx:657-661 | The button reads "Enviando..." if and only if it is disabled, that is, while the status is sending. |
| Rsvp.Step | src/app/page.tsx:596-604 | Every event keeps the status consistent with the pending timers: at most one is pending, and one is pending exactly while sending. |
| Rsvp.SubmitSendsWhenEnabled | src/app/page.tsx:596-599 | While the button is enabled (line 657), that is, from idle or done, a submission sets the status to sending. It leaves the form data alone and schedules one more timer. |
| Rsvp.SubmitIgnoredWhileSending | src/app/page.tsx:657 | While the status is sending the button is disabled, so a submission attempt changes nothing. |
| Rsvp.TimeoutCompletes | src/app/page.tsx:601-603 | A pending timer that fires sets the status to done, so the confirmation (lines 663-670) is shown, and leaves the data alone. |
| Rsvp.ChangeTouchesOneField | src/app/page.tsx:589-594 | An input change rewrites only that input's value. It leaves the status and the timers as they were. |
| Rsvp.Run | src/app/page.tsx:582-604 | Any sequence of events keeps the status consistent with the pending timers: at most one is pending, and one exactly while sending. |
| Rsvp.AtMostOneTimer | src/app/page.tsx:596-604 | From a fresh form, after any events, at most one submission timer is pending, and one is pending if and only if the status is sending. |
| Rsvp.FormFollowsChanges | src/app/page.tsx:589-604 | The form data after any sequence of events is the result of its change events alone, applied in order. |
| Rsvp.IdleIffNeverSubmitted | src/app/page.tsx:587-604 | From a fresh form, the status is idle if and only if the form was never submitted. |
| Rsvp.PendingTimersComplete | src/app/page.tsx:601-603 | After n of the pending timers fire, n fewer are pending and the data is unchanged. If n > 0, the status is done. |
| Rsvp.SubmittedEndsDone | src/app/page.tsx:596-603 | Once every pending timer of a submitted form has fired, the status is done, the confirmation (lines 663-670) is shown and nothing is pending. |
| Rsvp.RsvpSection.constructor | src/app/page.tsx:583-587 | The form mounts with an empty name, one guest and status idle. |
| Rsvp.RsvpSection.HandleChange | src/app/page.tsx:589-594 | `handleChange` performs exactly one change step. |
| Rsvp.RsvpSection.HandleSubmit | src/app/page.tsx:596-604 | `handleSubmit`, reachable only while the button is enabled (line 657), performs exactly one submit step. |
| Rsvp.RsvpSection.SubmitTimeout | src/app/page.tsx:601-603 | A pending timer's callback performs exactly one timeout step. |
| Music.Step | src/app/page.tsx:195-206 | Definition, no contract of its own: a click flips the flag, a rejected `play()` clears it. Its properties are stated by `Music.StepEffect`. |
| Music.Run | src/app/page.tsx:182-206 | Definition, no contract of its own: the events applied in order. Its properties are stated by `Music.PlayingIffOddClicks` and `Music.PlayingFromStart`. |
| Music.StepEffect | src/app/page.tsx:195-206 | A click flips the flag, two clicks restore it, and a rejected playback leaves the music paused. |
| Music.PlayingIffOddClicks | src/app/page.tsx:182-206 | After any events, the flag is set if and only if the number of clicks since the last rejection is odd. With no rejection, the count starts from the initial flag. |
| Music.PlayingFromStart | src/app/page.tsx:182-206 | From the page's start, the music is meant to play if and only if an odd number of clicks came since the last rejection. |
| Music.LabelMatchesAudio | src/app/page.tsx:192-210 | The button offers "Pausar música" if and only if the audio element has been told to play. |
| Music.MusicToggle.constructor | src/app/page.tsx:182 | The toggle starts with the music off. |
| Music.MusicToggle.Click | src/app/page.tsx:206 | The button's click performs exactly one click step. |
| Music.MusicToggle.PlayRejected | src/app/page.tsx:195 | A rejected `play()` performs exactly one rejection step. |

## Left out

- JSX, styling and animation (framer-motion, `next/image`, `next/link`, section layout): presentation with nothing to prove.
- `src/app/layout.tsx`: static metadata and font loading. It is not part of this model.
- Real time: `Date.now()` is the `nowMs` parameter. The firings of `setInterval` and `setTimeout` are events (`Tick`, `TapTimeout`, `SubmitTimeout`), and their cleanup functions and delays are not modelled.
- Parsing of the `-03:00` date literals (lines 18-19) and the `getUTC*` accessors are JavaScript built-ins. The event's instants are stated as UTC component records.
- Floating point in `getCountdown`: replaced by integer division. This is exact for whole non-negative milliseconds.
- `encodeURIComponent` on a lone surrogate (it throws): Dafny characters are Unicode scalar values, so the case cannot arise.
- The `<audio>` element, its volume and its `play()` promise: only the flag and the play/pause command it implies are modelled.
- The map and ride-hailing URL constants (lines 172-178): fixed strings.
- Browser form validation (`required`, `type="number"`, `min`/`max`): the browser enforces these before `handleSubmit` runs. The form data holds the inputs' strings as the handlers receive them.
- React scheduling: batching, strict-mode double calls of updater functions, and `setShowEasterEgg` being called from inside the `setTapCount` updater. Each event is applied once, whole.
- Countdown.CountdownClock.Tick: does not model the interval being stopped when the view unmounts.
