# Button: a verified model of a debounced, poll-driven push-button

This project is a Dafny model of the Arduino `Button` class (Button.h, Button.cpp). The class
watches one push-button on a digital input pin. The host calls `update()` from its loop. Each
call that is due samples the pin and advances a two-state machine, INACTIVE ⇄ ACTIVE. A press
is accepted at once, but only once `onClickInterval` ms have passed since the last click. A
release is accepted only after the pin has read "up" for `debounceDelay` ms with no "down" in
between, as `update` measures elapsed time (which, past 65 535 ms, is not the true elapsed
time: see below). On every INACTIVE → ACTIVE edge the class counts a click, stamps its time and calls the
optional `onClick` callback. `isClicked()` reports whether the last poll produced such an edge.
`getClickCount()` returns the 8-bit click counter.

Layout:

- `fixed_width.dfy` (`FixedWidth`) defines the integer widths and the clock arithmetic.
  A stored timestamp is `millis()` truncated to 16 bits (`Stamp`). An elapsed time is a
  32-bit unsigned subtraction of such a stamp from a fresh 32-bit reading (`Elapsed`).
  `clickCount++` wraps at 256 (`Inc8`).
- `button_spec.dfy` (`ButtonSpec`) covers one call at a time. It has the `Enums` type, a
  `Snapshot` value holding every field of Button.h, and one pure function per step of
  Button.cpp: `ReadButtonVal`, `Debounced` (`checkIfReleased`), `NextState`
  (`determineButtonState`), `Poll` (the body of `update` after the throttle) and `Tick` (the
  whole of `update`). It also holds the invariant `Consistent` and the lemmas about single calls.
- `button_runs.dfy` (`ButtonRuns`) covers sequences of `update` calls (`Run`). Its lemmas state
  the click counting, callback firing, click spacing and debounce behaviour of a whole run.
- `button.dfy` (`Buttons`) has the class `Button`, with the fields of Button.h and the methods
  of Button.cpp. Each method updates the fields in place and is proved to do exactly what the
  matching `ButtonSpec` function does to the `Snapshot`. `PullUpScenario` is a client that
  drives one button through a press, a debounced release, an ignored press and a counted press.

How outside calls are modelled:

- `millis()` is the `now: u32` parameter of `Update`. `digitalRead()` is its `level` parameter.
- `pinMode()` is not modelled.
- The `onClick` function pointer is a value `OnClick`: either `Null` or `Callback(id)`.
  `Update` returns `fired` (whether the callback was called). The ghost field `invoked` logs
  which callbacks were called.
- The Arduino core constants take their usual values: LOW = 0, HIGH = 1, INPUT_PULLUP = 2.
  Arduino.h is not part of this model.

Behaviour of the code that the model keeps and proves, some of it surprising:

- A timestamp is kept in 16 bits but subtracted from a 32-bit clock. So once the clock passes
  65 535 + 255 ms, every `update` call polls whatever `pollInterval` says
  (`ThrottleLapsesPast16Bits`). Likewise, once the clock passes 65 535 + `onClickInterval`, the
  minimum time between clicks no longer holds a press back (`ClickGuardLapsesPast16Bits`). The
  debounce timer is stored the same way, so once the clock passes 65 535 + 255 ms a running
  timer confirms the release at the next UP sample, whatever `debounceDelay` says
  (`DebounceLapsesPast16Bits`).
- A debounce timer with value 0 counts as "not running". A timer started at a clock value whose
  low 16 bits are 0 is therefore treated as not running (`ZeroStampPostponesRelease`).
- `lastClickTime` and `lastPollTime` start at 0. So no click is counted before the clock reaches
  `onClickInterval`, the first click included (`NoClickBeforeFirstInterval`). A call at time 0
  with a nonzero `pollInterval` does not poll.
- Two behaviours may be unexpected. The first click, like every later one, must wait until the
  clock reaches `onClickInterval`. A call that does not poll leaves `lastState` as the last poll
  set it, so `isClicked()` stays true until the next poll. `PullUpScenario` walks through the
  first.

## Model

| member | source | states |
|---|---|---|
| FixedWidth.Stamp | Button.cpp:114 | Storing the clock in a 16-bit field keeps a value no larger than the clock, equal to it below 65 536, and congruent to it modulo 65 536. |
| FixedWidth.Elapsed | Button.cpp:76 | The 32-bit unsigned subtraction of a stored stamp: the true difference when the stamp is not ahead of the clock, and the difference plus 2^32 when it is. |
| FixedWidth.Inc8 | Button.cpp:121 | The 8-bit increment: one more below 255, and 0 after 255. |
| ButtonSpec.InitialIsConsistent | Button.h:15-26 | The default field values satisfy the invariant, and no click edge is pending, so `isClicked()` starts false. |
| ButtonSpec.ReadButtonVal | Button.cpp:63-65 | A sample is always BUTTON_UP or BUTTON_DOWN, and it is BUTTON_UP exactly when the level equals the open-contact level. |
| ButtonSpec.PressedLevel | Button.cpp:9-19 | Which level means "pressed": LOW with the internal pull-up or HIGH, HIGH with LOW, and with any other argument the button always reads pressed. |
| ButtonSpec.Debounced | Button.cpp:71-84 | A DOWN sample stops the timer and does not release. An UP sample with the timer stopped starts it at the 16-bit stamp of `now` and does not release. A release happens exactly on an UP sample with the timer running and at least `debounceDelay` elapsed, and it stops the timer. Otherwise the timer is kept. |
| ButtonSpec.NextState | Button.cpp:86-95 | The result is INACTIVE, ACTIVE or the current state. From INACTIVE: ACTIVE exactly on DOWN with `onClickInterval` elapsed since the last click, and the timer is untouched. From any other state: INACTIVE exactly when `checkIfReleased` confirms, with the timer it leaves. |
| ButtonSpec.Poll | Button.cpp:113-125 | A polling call stamps `lastPollTime` with `now` and sets `lastState` to the old state. It counts a click exactly on an INACTIVE→ACTIVE edge, that is, an inactive button reading DOWN with `onClickInterval` elapsed. Then `clickCount` goes up by 1 mod 256 and `lastClickTime` gets the stamp of `now`. The callback fires exactly on a click with a callback set. No configuration field changes, and the invariant is kept. |
| ButtonSpec.Tick | Button.cpp:107-126 | A call before `pollInterval` has elapsed since the last poll changes no field and fires nothing. Any other call does what `Poll` says. A click needs a poll, and it leaves `lastClickTime == lastPollTime`. Every call keeps the invariant. |
| ButtonSpec.DownKeepsActive | Button.cpp:80-83 | An active button that reads DOWN stays active with its timer stopped. |
| ButtonSpec.ThrottleLapsesPast16Bits | Button.cpp:109 | Once the clock passes 65535 + 255 ms, every call polls, because of the 16-bit stamp and the 32-bit subtraction. |
| ButtonSpec.ClickGuardLapsesPast16Bits | Button.cpp:88 | Once the clock passes 65535 + `onClickInterval`, a DOWN sample on an inactive button that polls is always counted as a click. |
| ButtonSpec.DebounceLapsesPast16Bits | Button.cpp:76 | Once the clock passes 65535 + 255 ms, an active button with a running timer that polls and reads UP is released, whatever `debounceDelay` is. |
| ButtonSpec.NoClickBeforeFirstInterval | Button.cpp:88 | While `lastClickTime` is 0 and the clock is below `onClickInterval`, no call counts a click. |
| ButtonRuns.Run | Button.cpp:107-126 | A run of `update` calls never changes the configuration, the callback or the pin, and it keeps the invariant. |
| ButtonRuns.RunCountsClicks | Button.cpp:119-121 | After any run, `clickCount` equals its start value plus the number of INACTIVE→ACTIVE edges, modulo 256. |
| ButtonRuns.ClickCountFromConstruction | Button.h:19 | From construction, `clickCount` is the number of clicks so far, modulo 256. |
| ButtonRuns.RunFires | Button.cpp:123 | With no callback set, no callback is ever called. With one set, it is called exactly once per counted click. |
| ButtonRuns.QuietRunKeepsClickStamp | Button.cpp:119-124 | A run without clicks leaves `lastClickTime` unchanged. |
| ButtonRuns.ClickSpacing | Button.cpp:88 | The first click of a run comes at least `onClickInterval` ms, as `update` measures them, after the click stamped before the run. |
| ButtonRuns.ActivePoll | Button.cpp:91-94 | A polling call on an active button sets the timer and the state as `checkIfReleased` says. |
| ButtonRuns.RunningTimerMeansHeldRelease | Button.cpp:71-84 | While the button stays active, a running timer holds the stamp of an UP sample that only UP samples have followed. |
| ButtonRuns.ReleaseNeedsHeldRelease | Button.cpp:71-84 | A confirmed release needs an earlier UP sample with a nonzero stamp, only UP samples since then, and `debounceDelay` elapsed since it, as `update` measures elapsed time. So while the clock is below 65 536 ms, a bouncing press never releases. |
| ButtonRuns.HeldReleaseKeepsTimer | Button.cpp:73-79 | While the button is held released and the delay has not passed, it stays active with the timer at the first UP sample's stamp. |
| ButtonRuns.ReleaseConfirmedOnceDelayPassed | Button.cpp:76-79 | When the button is held released, the release is confirmed at the first later poll that sees `debounceDelay` elapsed since the first UP sample, and not before. |
| ButtonRuns.DefaultDelayReleasesOnSecondUp | Button.cpp:73-79 | With the default delays, the first UP sample only starts the timer and the second confirms the release. |
| ButtonRuns.ZeroStampPostponesRelease | Button.cpp:74-77 | An UP sample taken at a clock value whose low 16 bits are 0 leaves the timer stopped, so the next UP sample only starts it. |
| Buttons.Button.constructor | Button.cpp:9-19 | The fields take their default values. `resistorPull` is HIGH for INPUT_PULLUP and the argument itself otherwise. The invariant holds, and `isClicked()` is false. |
| Buttons.Button.SetOnClick | Button.cpp:21-23 | Only `onClick` changes, to the given callback. |
| Buttons.Button.SetDebounceDelay | Button.cpp:37-39 | Only `debounceDelay` changes, to `ms`. |
| Buttons.Button.SetPollInterval | Button.cpp:45-47 | Only `pollInterval` changes, to `ms`. |
| Buttons.Button.SetOnClickInterval | Button.cpp:53-55 | Only `onClickInterval` changes, to `ms`. |
| Buttons.Button.StateTransition | Button.cpp:97-102 | True exactly when (`lastState`, `state`) is the given pair. In a valid button, only a pair of machine states can match. |
| Buttons.Button.IsClicked | Button.cpp:25-27 | True exactly when (`lastState`, `state`) = (INACTIVE, ACTIVE). It reads only, so two calls agree. A pending click has been counted and was stamped by the last poll. |
| Buttons.Button.GetClickCount | Button.cpp:29-31 | Returns the 8-bit counter widened: below 256, and equal to the number of clicks since construction modulo 256. |
| Buttons.Button.CheckIfReleased | Button.cpp:71-84 | Changes only `debounceStartTime`. The result and the new timer are those of `Debounced`. |
| Buttons.Button.DetermineButtonState | Button.cpp:86-95 | Changes only `debounceStartTime`. The next state and the new timer are those of `NextState`. |
| Buttons.Button.Update | Button.cpp:107-126 | The fields become exactly what `Tick` gives, and the invariant is kept. `fired` says whether the callback was called. The ghost click count grows by one exactly on a click edge. The callback logged is the one that is set. |
| Buttons.PullUpScenario | Button.cpp:107-126 | With pull-up wiring and intervals of 10/50/200 ms: a press held from boot is not counted before 200 ms. The release is confirmed 50 ms after the first HIGH sample, not 40 ms after. A press 150 ms after a click is ignored, and one 250 ms after it is counted. |

## Left out

- The calls to `pinMode` in the constructor: they configure hardware and have no effect on the fields.
- `digitalRead` and `millis`: they are hardware and clock calls, so they become the `level` and `now` parameters of `Update`.
- Several readings of `millis()` within one `update`: the code reads the clock up to four times in one call. The model reads it once per call (`now`). So it does not capture a clock tick between those readings, which can make the code stamp a later time than the one it compared.
- The body of the callback: it is foreign code. The model records only that it was called, and which one.
- A callback that calls back into the button: `Update`'s contract assumes the callback does not call a setter or `update()` on the same button from inside the invocation, so such re-entrant changes to the fields are not captured.
- Interrupts and several instances on one pin: the code does nothing about either.
- ButtonRuns.ReleaseNeedsHeldRelease: stated for runs in which every call polls. A call that does not poll changes nothing (`Tick`), so such calls can be dropped from a run.
- ButtonRuns.RunningTimerMeansHeldRelease: stated for runs in which every call polls, for the same reason.
- ButtonRuns.HeldReleaseKeepsTimer: stated for runs in which every call polls, for the same reason.
- ButtonRuns.ReleaseConfirmedOnceDelayPassed: stated for runs in which every call polls, for the same reason.
