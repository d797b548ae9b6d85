# Stream balance engine: a Dafny model

This project models the frontend core of a CELO payment-streaming app. The contract vests a
stream's `cap` linearly over `unlockDuration` seconds, starting from the last withdrawal. The
frontend does three things with that:

- **Balance engine** (`unlocked_balance.dfy`, module `UnlockedBalance`, from
  `useUnlockedBalance.ts`). It estimates the unlocked amount locally with exact bigint arithmetic.
  A 100 ms tick stores the estimate in `interpolatedBalance` and its formatted text in
  `displayBalance`. When a contract read of `unlockedBalance` drifts from the estimate by more
  than 10^15 base units (0.001 CELO), the estimate snaps to that read.
- **Stream details** (`stream_details.dfy`, module `StreamDetails`, from `useStreamDetails.ts`).
  From one `streams(address)` read it derives `hasStream`, `isNativeCelo`, `progressPercent`,
  `durationDays` and the start and end times.
- **Presentation** (`stream_balance.dfy`, module `StreamBalance`, from `StreamBalance.tsx`). It
  splits the display text into a whole part and a fractional part. The fraction is truncated, not
  rounded, to eight characters. It also runs the "is increasing" pulse: a flag raised on an increase
  and cleared by a 200 ms timer.

`streams.dfy` (module `Streams`) holds the read tuple `StreamData`, an `Option` type, the
zero-address literal and `CastMul`, an arithmetic fact (an integer product converts to the product
of the converted factors) that both the details and the presentation proofs use.

Timers, polling and the wall clock are explicit events and parameters:

- `BalanceEngine.SetConnected`, `OnStreamData` and `OnContractBalance` stand for the connection and
  the two contract reads.
- `Tick(now)` takes the wall-clock second that `Math.floor(Date.now() / 1000)` would read.
- `PulseDetector.Render` and `Expire` stand for re-renders and the 200 ms timeout.
- `formatEther` is a function value `format: int -> string` supplied by the caller. Nothing is
  assumed about its output.

Three behaviours of the code are worth stating explicitly, because a reader might expect otherwise:

- **Elapsed time is not clamped.** The code computes `now - lastWithdrawal` as is, with no floor
  at zero. Bigint division truncates toward zero, so a baseline in the future gives a negative
  estimate (`FutureBaselineNotClamped`, `FutureBaselineExample`). `progressPercent` is negative in
  the same case (`ProgressNegativeBeforeBaseline`).
- **Reconciliation also follows ticks.** The estimate is a dependency of the reconciliation
  effect, so reconciliation runs when a contract read arrives and again after every tick that
  changes the estimate. `TickAndSync` models that chain.
- **A falling display can leave the flag stuck.** A later non-increase cancels the pending 200 ms
  timer without lowering the flag. The flag then stays raised with no timer left
  (`FlagOutlivesCancelledTimer`).

## Model

| member | source | states |
|---|---|---|
| UnlockedBalance.TruncDiv | packages/frontend/src/hooks/useUnlockedBalance.ts:61 | bigint `/` by a positive divisor truncates toward zero: for `a >= 0`, `q*b <= a < q*b + b`; for `a < 0`, `a <= q*b <= 0` and `q*b < a + b` |
| UnlockedBalance.TruncDivMonotone | packages/frontend/src/hooks/useUnlockedBalance.ts:61 | truncating division is monotone in the dividend |
| UnlockedBalance.LocalBalance | packages/frontend/src/hooks/useUnlockedBalance.ts:50-65 | `calculateLocalBalance`: 0 with no data, with `cap == 0` or with `unlockDuration == 0` (so it never divides by zero); never above `cap` |
| UnlockedBalance.ElapsedFormula | packages/frontend/src/hooks/useUnlockedBalance.ts:57-64 | from the baseline on, the estimate is `min(cap, floor(cap * elapsed / unlockDuration))` and lies in `[0, cap]` |
| UnlockedBalance.LinearBeforeEnd | packages/frontend/src/hooks/useUnlockedBalance.ts:58-64 | while `0 <= elapsed <= unlockDuration` the cap is never hit early: the estimate is exactly `floor(cap * elapsed / unlockDuration)` |
| UnlockedBalance.SaturatesAtCap | packages/frontend/src/hooks/useUnlockedBalance.ts:58-64 | `elapsed >= unlockDuration > 0` gives exactly `cap` |
| UnlockedBalance.MonotoneInTime | packages/frontend/src/hooks/useUnlockedBalance.ts:57-64 | for a fixed snapshot the estimate never decreases as `now` grows, on both sides of the baseline |
| UnlockedBalance.FutureBaselineNotClamped | packages/frontend/src/hooks/useUnlockedBalance.ts:58-61 | `now < lastWithdrawal` is not clamped: the estimate is `-floor(cap * (lastWithdrawal - now) / unlockDuration)`, which is `<= 0` |
| UnlockedBalance.FutureBaselineExample | packages/frontend/src/hooks/useUnlockedBalance.ts:58-61 | cap 10, duration 3, baseline one second ahead gives -3 (negative, rounded toward zero, not -4) |
| UnlockedBalance.HalfDayAndPastEnd | packages/frontend/src/hooks/useUnlockedBalance.ts:50-65 | 100 CELO over 86400 s: 50 CELO after 43200 s, 100 CELO (capped) after 90000 s |
| UnlockedBalance.Drift | packages/frontend/src/hooks/useUnlockedBalance.ts:88-90 | the larger-minus-smaller difference is the absolute difference; it is 0 exactly when the values are equal |
| UnlockedBalance.Reconciled | packages/frontend/src/hooks/useUnlockedBalance.ts:86-96 | drift strictly above 10^15 snaps to the contract value; drift of at most 10^15 (including exactly 10^15) keeps the estimate; afterwards the drift is at most 10^15 |
| UnlockedBalance.ReconcileIdempotent | packages/frontend/src/hooks/useUnlockedBalance.ts:86-96 | reconciling again against the same read changes nothing |
| UnlockedBalance.SnapExample | packages/frontend/src/hooks/useUnlockedBalance.ts:92-95 | an estimate of 100.002 CELO against a 100 CELO read (drift 2*10^15) snaps to 100 CELO |
| UnlockedBalance.BalanceEngine.constructor | packages/frontend/src/hooks/useUnlockedBalance.ts:22-23 | initial state: `displayBalance == "0.00"`, `interpolatedBalance == 0`, nothing read yet |
| UnlockedBalance.BalanceEngine.Reset | packages/frontend/src/hooks/useUnlockedBalance.ts:69-72 | sets `interpolatedBalance = 0` and `displayBalance = "0.00"` and nothing else |
| UnlockedBalance.BalanceEngine.SetConnected | packages/frontend/src/hooks/useUnlockedBalance.ts:68-73 | a disconnect resets the estimate and the display to zero at once; a (re)connect keeps them until the next tick |
| UnlockedBalance.BalanceEngine.OnStreamData | packages/frontend/src/hooks/useUnlockedBalance.ts:68-73 | losing the stream data resets the estimate and the display to zero; new data takes effect on the next tick |
| UnlockedBalance.BalanceEngine.Tick | packages/frontend/src/hooks/useUnlockedBalance.ts:68-79 | disconnected or without data: estimate 0 and display "0.00"; otherwise estimate `LocalBalance(data, now)` and display its formatted text; the display invariant is kept |
| UnlockedBalance.BalanceEngine.Reconcile | packages/frontend/src/hooks/useUnlockedBalance.ts:85-97 | with a contract read, the estimate becomes `Reconciled(old estimate, read)` and the display follows it only when it snapped; without a read nothing changes |
| UnlockedBalance.BalanceEngine.OnContractBalance | packages/frontend/src/hooks/useUnlockedBalance.ts:85-97 | stores the read and reconciles against it: the estimate becomes `Reconciled(old estimate, read)` and ends within 10^15 of the read; the display changes, to the read's formatted text, only when the estimate snapped; with no read nothing else changes |
| UnlockedBalance.BalanceEngine.TickAndSync | packages/frontend/src/hooks/useUnlockedBalance.ts:75-97 | a tick followed by the reconciliation it triggers: the estimate is the tick's value reconciled with the last read, so it ends within 10^15 of that read; the display is the tick's text, replaced by the read's formatted text when the drift exceeded 10^15 |
| StreamDetails.Min | packages/frontend/src/hooks/useStreamDetails.ts:51 | `Math.min` is one of its two arguments and at most both |
| StreamDetails.Elapsed | packages/frontend/src/hooks/useStreamDetails.ts:48-49 | elapsed seconds are `(nowMs - 1000 * lastWithdrawal) / 1000`, not floored, positive exactly after the baseline |
| StreamDetails.Progress | packages/frontend/src/hooks/useStreamDetails.ts:48-52 | `progressPercent` is at most 100, 0 without a stream, and 100 for a zero duration after the baseline (`Math.min(100, Infinity)`) |
| StreamDetails.Derive | packages/frontend/src/hooks/useStreamDetails.ts:40-67 | `null` exactly when the read is missing; `hasStream` iff `cap > 0`; `isNativeCelo` iff the address equals the zero-address literal exactly; `durationDays * 86400 == unlockDuration`; `endTime - startTime` is `unlockDuration` seconds; the four read fields pass through unchanged |
| StreamDetails.ProgressLinear | packages/frontend/src/hooks/useStreamDetails.ts:49-52 | within the unlock period the percentage is exactly `100 * elapsed / unlockDuration`, and non-negative |
| StreamDetails.ProgressComplete | packages/frontend/src/hooks/useStreamDetails.ts:50-52 | from the end of the period on the percentage is exactly 100 |
| StreamDetails.ProgressNegativeBeforeBaseline | packages/frontend/src/hooks/useStreamDetails.ts:48-52 | the percentage is not clamped below: before the baseline it is negative |
| StreamDetails.ProgressMonotone | packages/frontend/src/hooks/useStreamDetails.ts:48-52 | the percentage never decreases as the clock advances |
| StreamDetails.ProgressMatchesBalance | packages/frontend/src/hooks/useStreamDetails.ts:48-52 | at a whole second after the baseline, the ticking estimate is the cap's share at the card's percentage, rounded down: `balance <= cap * percent / 100 < balance + 1` |
| StreamBalance.Split | packages/frontend/src/components/StreamBalance.tsx:34 | `split('.')` yields at least one part and no part contains the separator |
| StreamBalance.SplitJoin | packages/frontend/src/components/StreamBalance.tsx:34 | joining the parts with the separator gives back the text |
| StreamBalance.SplitNoSeparator | packages/frontend/src/components/StreamBalance.tsx:34 | text without the separator splits into itself alone |
| StreamBalance.SplitAtFirst | packages/frontend/src/components/StreamBalance.tsx:34 | the first part is the text before the first separator, followed by the split of the rest |
| StreamBalance.Prefix | packages/frontend/src/components/StreamBalance.tsx:36 | `slice(0, n)` is a prefix of the text of length exactly `min(len, n)` |
| StreamBalance.WholePart | packages/frontend/src/components/StreamBalance.tsx:34-35 | the whole part is never empty |
| StreamBalance.DecimalPart | packages/frontend/src/components/StreamBalance.tsx:34-36 | the decimal part has at most 8 characters |
| StreamBalance.NoDot | packages/frontend/src/components/StreamBalance.tsx:34-36 | text with no `.` shows itself (or "0" when empty) and the decimals "00" |
| StreamBalance.WithDot | packages/frontend/src/components/StreamBalance.tsx:34-36 | the whole part is the text before the first `.` (or "0"); the decimals are the first 8 characters of the text up to the next `.`, a prefix of the text after the first `.` (truncation, not rounding), and "00" when nothing follows the dot |
| StreamBalance.RoundTrip | packages/frontend/src/components/StreamBalance.tsx:34-36 | one `.`, a non-empty whole part and 1 to 8 fractional characters: `wholePart + "." + decimalPart` is the input |
| StreamBalance.NumericValue | packages/frontend/src/components/StreamBalance.tsx:16 | exact value of a display text where the code uses `parseFloat`: empty text is not a number, and only text starting with `-` is negative |
| StreamBalance.IsGreater | packages/frontend/src/components/StreamBalance.tsx:16 | `parseFloat(display) > parseFloat(prev)`: only two numeric texts can compare greater, and texts with equal values (in particular equal texts) never do |
| StreamBalance.ValueOfDigits | packages/frontend/src/components/StreamBalance.tsx:16 | digit text denotes its integer value; `whole.fraction` denotes `whole + fraction / 10^len(fraction)` |
| StreamBalance.TruncationNeverRoundsUp | packages/frontend/src/components/StreamBalance.tsx:36 | the shown fraction's value is at most the full value and less than one unit of the last shown digit below it |
| StreamBalance.ZeroTextsEqual | packages/frontend/src/components/StreamBalance.tsx:16 | the reset text "0.00" and the text "0" denote the same number, 0 |
| StreamBalance.InitialPulse | packages/frontend/src/components/StreamBalance.tsx:12-13 | on mount `prevBalance` is the first display text and the flag is down, with no timer |
| StreamBalance.EffectRun | packages/frontend/src/components/StreamBalance.tsx:15-21 | a strictly greater value raises the flag, arms the timer and keeps `prevBalance`; an equal, smaller or non-numeric value sets `prevBalance` to it, keeps the flag as it was and leaves no timer pending |
| StreamBalance.OnDisplay | packages/frontend/src/components/StreamBalance.tsx:15-22 | the effect runs only when the display text changed; otherwise nothing changes |
| StreamBalance.OnExpire | packages/frontend/src/components/StreamBalance.tsx:18 | a pending timer clears the flag; with no timer pending nothing changes |
| StreamBalance.TimerOnlyWhenRaisedPreserved | packages/frontend/src/components/StreamBalance.tsx:16-21 | both events keep "a pending timer implies a raised flag" |
| StreamBalance.IncreaseThenExpire | packages/frontend/src/components/StreamBalance.tsx:16-19 | an increase left alone until the timer fires ends with the flag down and `prevBalance` still the old baseline |
| StreamBalance.EffectSettles | packages/frontend/src/components/StreamBalance.tsx:21-22 | the re-run caused by setting `prevBalance` changes nothing and arms no timer |
| StreamBalance.FlagOutlivesCancelledTimer | packages/frontend/src/components/StreamBalance.tsx:16-21 | "1" then "2" then "1": the fall cancels the timer, so the flag stays raised with no timer left to clear it |
| StreamBalance.PulseDetector.constructor | packages/frontend/src/components/StreamBalance.tsx:12-13 | the detector starts in `InitialPulse(display)` |
| StreamBalance.PulseDetector.Render | packages/frontend/src/components/StreamBalance.tsx:15-22 | a render moves the state by `OnDisplay` |
| StreamBalance.PulseDetector.Expire | packages/frontend/src/components/StreamBalance.tsx:18 | the timeout moves the state by `OnExpire` |

## Left out

- Contract polling (`useReadContract` with `refetchInterval` 2000 and 5000 ms), `refetch`, `setInterval`, `setTimeout` and React's render scheduling. They are replaced by the explicit events above. The 100 ms and 200 ms periods are not modelled as durations.
- Whether a contract read is still present after a disconnect. That depends on the wagmi query cache, which is not part of this model. The caller supplies it through `OnContractBalance`, and `Reconcile` itself does not check the connection, as in the code.
- `formatEther` (viem) is a foreign call. It is a caller-supplied `format` function, and nothing is proved about its output shape. `formattedCap` is `format(cap)`.
- `isLoading` (`!streamData`) and the "Loading..." render branch. They are read off the absence of stream data and are not modelled as separate members.
- `progressPercent` with `cap > 0`, `unlockDuration == 0` and the clock at or before the baseline: the code computes `Math.min(100, elapsed / 0 * 100)`, which is `NaN` at the baseline and `-Infinity` before it. Neither is a real number, so `Derive` and `Progress` exclude those reads by the precondition `ProgressIsFinite`; after the baseline the same division gives 100, which the model keeps.
- JavaScript `Number` rounding: `Number(bigint)` conversions, the division by 1000 and `progressPercent`/`durationDays` are exact over `real`. Very large values that lose precision in a double are not captured.
- StreamBalance.NumericValue: `parseFloat` is replaced by an exact decimal reading. It does not accept prefixes followed by other text, exponents or `Infinity`, which `formatEther` never produces. The comparison is exact where the code loses precision on 18-decimal values.
- The `Date` objects are their epoch milliseconds (`startTimeMs`, `endTimeMs`).
- The contract's `uint256` range is not bounded. `StreamData` fields are unbounded naturals, which is exact for bigints.
- StreamCard, WalletConnect, the page layout and the wagmi configuration are UI and transport. The withdraw transaction flow is not part of this model.
