# Launch page logic, modelled in Dafny

The repository is a "coming soon" landing page written in React. Most of it
is animation configuration. This project models the parts that hold actual
logic:

- **Countdown engine** (`CountdownTimer.tsx`). A tick takes the
  millisecond difference `target - now` and splits it into days, hours,
  minutes, seconds and hundredths. It then checks a table of milestone
  thresholds and raises the urgency effects: pulse, glitch, tick sound and
  vibration. If time is left, it publishes the new value (keeping the old one
  as `prevTimeLeft`) and tells the scheduler to tick again. Otherwise it
  latches completion. The module also covers two-digit formatting and the
  list of display cells.
- **Email sign-up form** (`EmailForm.tsx`). The address check is the regular
  expression `^[^\s@]+@[^\s@]+\.[^\s@]+$`. It drives a small state machine
  over `(email, isSubmitting, status, errorMessage)`. Typing and submitting
  are events, and so are the two delayed callbacks that a submission
  schedules.
- **Notification panel** (`NotificationForm.tsx`). It has three option
  buttons; two of them open links. Picking the third shows an email form,
  whose submission is a stub that always succeeds after a delay.
- **Confetti buffer** (`PartyConfetti.tsx`). Each burst appends thirty pieces
  and keeps the last hundred.

Modules: `Shared` (option type, form status, removing a pending callback),
`Decimal` (`String(n)` up to 2^53, and `padStart`), `Countdown`, `EmailForm`,
`NotificationForm`, `Confetti`.

Time, timers and randomness are explicit inputs:

- The clock reading `now` is a parameter of every tick. A confetti burst
  reads the clock once per piece, so it takes thirty readings.
- The countdown target is an integer millisecond value.
- The tick loop's timer is a `scheduled` flag. The ticks themselves are a
  sequence of clock readings.
- A form keeps the callbacks it has scheduled in a `pending` list. The event
  `Fire(i)` runs any one of them. Real timers fire in deadline order, and
  that order is one of those allowed here. So the forms' invariants hold for
  every firing order.
- `Math.random()` draws for confetti colours are a parameter: reals in
  `[0, 1)`.

Callbacks and other side effects of a countdown tick become a list of
`Effect` values, in the order the component triggers them. These are the
`onTick`, `onComplete` and `onMilestone` callbacks, the sounds, the
vibration, and the pulse and glitch animation values.

After completion `timeLeft` keeps its last value: lines 269-276 of
`CountdownTimer.tsx` touch only `isComplete`, and `CalculateTimeLeft`
states exactly that.

## Model

| member | source | states |
|---|---|---|
| `Decimal.Show` | src/components/CountdownTimer.tsx:404 | `String(n)` of a non-negative integer up to 2^53 has one character per decimal digit, only digits, and no leading zero from 10 upward |
| `Decimal.ParseShow` | src/components/CountdownTimer.tsx:404 | reading the decimal rendering back gives the number, so the rendering is faithful |
| `Decimal.ShowInjective` | src/components/CountdownTimer.tsx:404 | different numbers never render to the same text |
| `Decimal.PadStart` | src/components/CountdownTimer.tsx:404 | `padStart` leaves a string of at least the width unchanged; a shorter one is filled to exactly the width, ending in the original text, with only fill characters before it |
| `Countdown.Decompose` | src/components/CountdownTimer.tsx:226-232 | for a positive difference: hours ≤ 23, minutes ≤ 59, seconds ≤ 59, hundredths ≤ 99; days·86 400 000 + hours·3 600 000 + minutes·60 000 + seconds·1000 + diff mod 1000 = diff; the whole seconds equal ⌊diff/1000⌋ (the `totalSeconds` of line 242); the hundredths are the leftover milliseconds divided by ten, rounded down |
| `Countdown.DecomposeUnique` | src/components/CountdownTimer.tsx:227-232 | the split is the only one: any in-range value plus fewer than 1000 leftover milliseconds decomposes back to itself |
| `Countdown.DecomposeExample` | src/components/CountdownTimer.tsx:227-232 | 90 061 001 ms is 1 day, 1 hour, 1 minute, 1 second and 0 hundredths |
| `Countdown.FirstFiring` | src/components/CountdownTimer.tsx:289-295 | the scan with `break` returns the first table entry that is hit exactly and differs from the current label, or none when no entry qualifies |
| `Countdown.CheckMilestones` | src/components/CountdownTimer.tsx:280-296 | a milestone fires iff `totalSeconds` equals one of 86400, 3600, 600, 60, 10 and that entry's label differs from the current one; the fired label is that entry's label |
| `Countdown.MilestoneLabelDetermined` | src/components/CountdownTimer.tsx:281-287 | the thresholds are distinct, so a given total can only fire its own label |
| `Countdown.MilestoneIdempotent` | src/components/CountdownTimer.tsx:289-294 | checking the same total again fires nothing and leaves the current label unchanged |
| `Countdown.CalculateTimeLeft` | src/components/CountdownTimer.tsx:222-277 | returns true iff time is left; then `timeLeft` is the new split, `prevTimeLeft` is the old `timeLeft`, `isComplete` is kept and the milestone label advances; otherwise the only change is that `isComplete` becomes true |
| `Countdown.TickReports` | src/components/CountdownTimer.tsx:263-268 | with time left, `onTick` gets exactly the published value (iff it is provided); a milestone is announced iff one fires, with the published value; completion is never signalled |
| `Countdown.CompletionLatch` | src/components/CountdownTimer.tsx:269-276 | without time left, `onComplete` and the completion sound fire only if not already complete; an already complete tick has no effects at all |
| `Countdown.UrgencyRules` | src/components/CountdownTimer.tsx:245-261 | pulse iff time is left and total seconds ≤ 60; glitch iff also enabled and ≤ 10; tick sound iff sound is on and 0 < total ≤ 10; vibration iff haptics are on, supported, and total ≤ 5 |
| `Countdown.UrgencyEffects` | src/components/CountdownTimer.tsx:245-261 | the urgency block of a tick; characterised by `UrgencyRules` (pulse, glitch, tick sound and vibration each under its exact condition) |
| `Countdown.Mount` | src/components/CountdownTimer.tsx:388-397 | mounting runs one calculation at once and always schedules the first tick; the countdown is complete iff no time was left; with time left it displays the decomposed difference against an all-zero previous value; mounted past its target it keeps the zero display and calls `onComplete` and the completion sound iff they are enabled |
| `Countdown.TickReschedules` | src/components/CountdownTimer.tsx:390-394 | a tick schedules the next one exactly when the calculation returned true |
| `Countdown.Run` | src/components/CountdownTimer.tsx:390-394 | the self-rescheduling tick loop; characterised by `TickReschedules`, `CompletionAtMostOnce` and `StopsOnlyWhenComplete` |
| `Countdown.CompletionAtMostOnce` | src/components/CountdownTimer.tsx:269-276 | over any sequence of ticks, `onComplete` fires at most once, never if already complete, and only by latching completion |
| `Countdown.StopsOnlyWhenComplete` | src/components/CountdownTimer.tsx:390-394 | a running tick loop stops only after completion has been latched |
| `Countdown.MountedCompletionOnce` | src/components/CountdownTimer.tsx:384-397 | in the first run of the countdown effect, where every tick reads the current state, completion is announced at most once whatever the clock readings |
| `Countdown.FormatNumber` | src/components/CountdownTimer.tsx:404 | 0-9 become `'0'` then the digit; 10 and above are the plain decimal rendering `Show(n)`; the length is max(2, digit count); the text reads back as the number |
| `Countdown.Units` | src/components/CountdownTimer.tsx:449-467 | the cells are Days, Hours, Minutes, Seconds, then MS iff hundredths are shown; the keys are days, hours, minutes, seconds (and milliseconds), each bound to the cell of the same label; each cell's value and previous value are the fields its key names; keys are distinct |
| `Countdown.CellsTwoDigits` | src/components/CountdownTimer.tsx:545-577 | while the day count is below 100, every displayed cell of an in-range value renders as exactly two characters |
| `EmailForm.ValidateEmailMatchesPattern` | src/components/EmailForm.tsx:11-12 | the direct check accepts exactly the strings that match the regular expression, read as three runs of `[^\s@]` separated by `@` and `.` |
| `EmailForm.ValidateEmail` | src/components/EmailForm.tsx:11-12 | `validateEmail`, computed directly; characterised by `ValidateEmailMatchesPattern` (accepts exactly what the regular expression matches) and `AcceptedShape` |
| `EmailForm.AcceptedShape` | src/components/EmailForm.tsx:11-12 | an accepted address has exactly one `@`, no whitespace, something before the `@`, and a domain with a dot that is neither its first nor its last character |
| `EmailForm.ValidateEmailExamples` | src/components/EmailForm.tsx:11-12 | `""`, `"a@b"`, `"a b@c.d"` and `"a@b@c.d"` are refused; `"a@b.c"` is accepted |
| `EmailForm.HandleSubmit` | src/components/EmailForm.tsx:21-31 | a refused address sets status to error with the fixed message and leaves email, `isSubmitting` and the pending callbacks alone; an accepted one sets `isSubmitting`, status idle, and schedules the finishing callback |
| `EmailForm.Continue` | src/components/EmailForm.tsx:34-43 | the finishing callback clears `isSubmitting` and the email, sets success and schedules the clearing callback; the clearing callback only sets status back to idle |
| `EmailForm.HandleEdit` | src/components/EmailForm.tsx:54-57 | typing replaces the email; an error status becomes idle and any other status is kept |
| `EmailForm.ApplyConsistent` | src/components/EmailForm.tsx:21-57 | in every reachable state, a submission in flight has its finishing callback pending, a success has its clearing callback pending, and an error carries the fixed message |
| `EmailForm.DisabledOnlyWhilePending` | src/components/EmailForm.tsx:71-101 | a reachable disabled form always has a callback pending, and once nothing is in flight, firing the pending clear re-enables it |
| `EmailForm.Disabled` | src/components/EmailForm.tsx:71 | the input (line 71) and the button (line 101) are disabled while submitting or showing success; characterised by `DisabledOnlyWhilePending` and `SubmissionSequence` |
| `EmailForm.SubmissionSequence` | src/components/EmailForm.tsx:21-44 | submit, finish, clear: submitting and disabled, then success with the email emptied and still disabled, then idle and enabled with nothing pending |
| `NotificationForm.OnlyEmailLacksLink` | src/components/NotificationForm.tsx:21-42 | in the option table an option has no link iff it is the email option, and the three types are distinct |
| `NotificationForm.HandleOptionClick` | src/components/NotificationForm.tsx:44-50 | an option with a link opens that link and leaves the selection unchanged; one without a link selects its type and opens nothing |
| `NotificationForm.HandleSubmit` | src/components/NotificationForm.tsx:52-55 | submitting sets `isSubmitting`, schedules the finishing callback and changes nothing else |
| `NotificationForm.Continue` | src/components/NotificationForm.tsx:56-63 | the finishing callback clears `isSubmitting`, contact and selection, sets success and schedules the status reset; the reset only sets status to idle |
| `NotificationForm.ApplyConsistent` | src/components/NotificationForm.tsx:44-63 | every state reachable from a consistent one keeps the selection empty or email, the status not error, and the ending callbacks of a submission or success pending |
| `NotificationForm.NeverError` | src/components/NotificationForm.tsx:52-63 | from the initial state, no sequence of clicks, edits, submits or callbacks ever reaches the error status, and the selection is only ever empty or email |
| `NotificationForm.DisabledOnlyWhilePending` | src/components/NotificationForm.tsx:144-151 | a reachable disabled form always has a callback pending, and once nothing is in flight, firing the pending reset re-enables it |
| `NotificationForm.Disabled` | src/components/NotificationForm.tsx:144 | the input (line 144) and the button (line 151) are disabled while submitting or showing success; characterised by `DisabledOnlyWhilePending` and `SubmissionSequence` |
| `NotificationForm.SubmissionSequence` | src/components/NotificationForm.tsx:129-151 | choosing email shows the form; submitting disables it; finishing hides it with a success status; the reset makes it idle and enabled |
| `NotificationForm.FormVisible` | src/components/NotificationForm.tsx:129 | the email form is rendered exactly when the email option is selected; characterised by `SubmissionSequence` and `NeverError` (only email is ever selected) |
| `Confetti.ColorIndex` | src/components/PartyConfetti.tsx:22 | `Math.floor(draw * 7)` for a draw in [0, 1) is a valid palette index |
| `Confetti.NewPieces` | src/components/PartyConfetti.tsx:17-23 | a burst is exactly 30 pieces; the clock is read once per piece and piece i has id reading i + i; every colour is in the seven-colour palette; readings that never go backwards give strictly increasing ids |
| `Confetti.KeepLast` | src/components/PartyConfetti.tsx:25 | for a positive n, `slice(-n)` returns the last min(n, length) elements (the component only passes 100) |
| `Confetti.Burst` | src/components/PartyConfetti.tsx:16-26 | after a burst the buffer holds min(old + 30, 100) pieces; the 30 new ones are last, in order; the survivors of the old buffer are its newest part; below capacity nothing is dropped |
| `Confetti.BurstKeepsIdsIncreasing` | src/components/PartyConfetti.tsx:17-25 | when the burst's readings never go backwards and the first is past the newest id shown, a burst keeps ids increasing, so render keys stay distinct |
| `Confetti.BurstsBounded` | src/components/PartyConfetti.tsx:25-30 | over any number of bursts the buffer holds at most 100 pieces, and at least 30 once a burst has run |
| `Confetti.Bursts` | src/components/PartyConfetti.tsx:28-30 | the initial burst and the three-second interval as a run of bursts; characterised by `BurstsBounded` and `BurstsDistinct` |
| `Confetti.BurstsDistinct` | src/components/PartyConfetti.tsx:17-30 | bursts that each start past the previous burst's last id keep the ids strictly increasing |

## Left out

- Date parsing: `new Date(targetDate)` is not modelled, and the target is taken as an integer. A malformed date has no defined behaviour here.
- Re-running the countdown effect: `Mount` starts from the initial state only. The `isComplete` reset when the effect runs again (line 385) is not modelled. Neither are the effect's re-runs whenever `calculateTimeLeft` changes identity, nor the stale closures they read. Completion is therefore proved at most once per run of ticks.
- Countdown.MountedCompletionOnce: holds only for the first run of the effect. `isComplete` is a dependency of `calculateTimeLeft` (line 277), which is a dependency of the effect (line 402). Latching completion therefore re-runs the effect, which resets `isComplete` to false (line 385) and calculates again. A countdown mounted past its target thus calls `onComplete` again on every such re-run, and the model does not promise otherwise.
- Confetti.BurstsDistinct: assumes the clock never goes backwards within a burst and each burst starts past the previous one's last id. `Date.now()` is wall-clock time and can be set back, and then render keys can repeat.
- Decimal.Show: equals `String(n)` only for integers up to 2^53. Above that JavaScript prints the shortest digits that read back as the same double, and from 10^21 on it uses exponent form. The component formats only time fields, which within the range of a JavaScript `Date` (±8.64·10^15 ms) stay far below 2^53.
- Real timers: `setTimeout` and `setInterval` concurrency, delays and `clearTimeout` on unmount are not modelled. Each callback is a discrete event instead.
- `precision`: the tick delay is not modelled, because the clock readings are inputs.
- Floating point in the countdown: the progress ratio, its clamp, and the motion values (lines 80-83, 236-239). The glitch effect records only that a random intensity is set.
- Foreign APIs: Web Audio (lines 299-334) is modelled only as the tick and completion sound effects. The early return in `playComplete` when no audio context exists is not modelled. `navigator.vibrate` is a `canVibrate` setting plus a `Vibrate` effect. The canvas particle loop (lines 337-381) and `window.open` are left out; for `window.open`, the link to open is returned instead.
- Colour-scheme and size tables and all rendering markup of the countdown (lines 86-207 and the JSX), except the digit formatting and the unit list.
- Confetti x position, rotation and size: these are random floating-point display values.
- EmailForm.ValidateEmail: strings are sequences of Unicode scalar values. The regular expression has no `u` flag, so JavaScript matches it over UTF-16 code units. The two agree on every well-formed string, but a lone surrogate has no counterpart here.
- Focusing the input on error (`EmailForm.tsx` lines 15-19), because it is a DOM side effect.
- The purely presentational components: background particles, party background, sparkles, disco lights, headline, logo, reviews, contact info, footer, the page layout, and the Tailwind configuration.
