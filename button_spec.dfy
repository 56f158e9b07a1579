/**
 * The state of one `Button` (the fields that Button.h declares) as a value,
 * and what each step of the poll-driven state machine does to it. The class
 * in button.dfy is proved to follow these functions call by call.
 *
 * Time is the 32-bit `millis()` value of the call, passed in as `now`; the
 * pin level is the `digitalRead()` result, passed in as `level`.
 */
module ButtonSpec {
  import opened FixedWidth

  // Levels and the pull-up pin mode, with the values of the Arduino core.
  const LOW: u8 := 0
  const HIGH: u8 := 1
  const INPUT_PULLUP: u8 := 2

  /** What `digitalRead` can return. */
  type Level = x: u8 | x == LOW || x == HIGH

  /** Button.h's `Enums`: the two machine states and the two raw samples share one type. */
  datatype Enums = StateInactive | StateActive | ButtonDown | ButtonUp

  predicate IsMachineState(e: Enums)
  {
    e == StateInactive || e == StateActive
  }

  /** The `onClick` function pointer: null, or a callback known by an identity. */
  datatype OnClick = Null | Callback(id: nat)

  /** Every field of a `Button`, with the width Button.h gives it. */
  datatype Snapshot = Snapshot(
    onClick: OnClick,
    state: Enums,
    lastState: Enums,
    clickCount: u8,
    debounceStartTime: u16,
    lastPollTime: u16,
    lastClickTime: u16,
    debounceDelay: u8,
    pollInterval: u8,
    onClickInterval: u16,
    pinAddress: u8,
    resistorPull: u8)

  /** The level the pin shows while the button is open, from the constructor's argument. */
  function ResolvePull(requested: u8): u8
  {
    if requested == INPUT_PULLUP then HIGH else requested
  }

  /** A freshly constructed button: Button.h's default member values. */
  function Initial(pinAddress: u8, requested: u8): Snapshot
  {
    Snapshot(Null, StateInactive, StateInactive, 0, 0, 0, 0, 0, 0, 0, pinAddress, ResolvePull(requested))
  }

  /**
   * What every button reachable from construction satisfies: both state
   * fields hold machine states, the debounce timer is stopped while the
   * button is inactive, and a pending click edge was stamped by the poll
   * that produced it.
   */
  predicate Consistent(s: Snapshot)
  {
    && IsMachineState(s.state)
    && IsMachineState(s.lastState)
    && (s.state == StateInactive ==> s.debounceStartTime == 0)
    && (s.lastState == StateInactive && s.state == StateActive ==> s.lastClickTime == s.lastPollTime)
  }

  lemma InitialIsConsistent(pinAddress: u8, requested: u8)
    ensures var s := Initial(pinAddress, requested);
      Consistent(s) && !(s.lastState == StateInactive && s.state == StateActive)
  {
  }

  /** `readButtonVal`: the pin reads "up" exactly when it shows the open-contact level. */
  function ReadButtonVal(resistorPull: u8, level: Level): (v: Enums)
    ensures v == ButtonUp || v == ButtonDown
    ensures v == ButtonUp <==> level == resistorPull
  {
    if level == resistorPull then ButtonUp else ButtonDown
  }

  /**
   * Which level means "pressed" for each way the button may be wired: with
   * the internal or an external pull-up a pressed button reads LOW, with an
   * external pull-down it reads HIGH, and with any other argument the
   * comparison never succeeds, so the button always reads pressed.
   */
  lemma PressedLevel(pinAddress: u8, requested: u8, level: Level)
    ensures var v := ReadButtonVal(Initial(pinAddress, requested).resistorPull, level);
      && (requested == INPUT_PULLUP || requested == HIGH ==> (v == ButtonDown <==> level == LOW))
      && (requested == LOW ==> (v == ButtonDown <==> level == HIGH))
      && (requested != LOW && requested != HIGH && requested != INPUT_PULLUP ==> v == ButtonDown)
  {
  }

  /** Result of `checkIfReleased`: its return value and the new `debounceStartTime`. */
  datatype Debounce = Debounce(released: bool, timer: u16)

  /**
   * `checkIfReleased`: a DOWN sample stops the timer; an UP sample starts a
   * stopped timer, and confirms the release (stopping the timer again) once
   * a running timer has seen `debounceDelay` milliseconds go by. A timer
   * value of 0 means "stopped", including a timer started at a `millis()`
   * value whose low 16 bits are 0.
   */
  function Debounced(s: Snapshot, v: Enums, now: u32): (d: Debounce)
    ensures v != ButtonUp ==> d == Debounce(false, 0)
    ensures v == ButtonUp && s.debounceStartTime == 0 ==> d == Debounce(false, Stamp(now))
    ensures d.released <==>
      v == ButtonUp && s.debounceStartTime != 0 && Elapsed(now, s.debounceStartTime) >= s.debounceDelay
    ensures d.released ==> d.timer == 0
    ensures !d.released && v == ButtonUp && s.debounceStartTime != 0 ==> d.timer == s.debounceStartTime
  {
    if v == ButtonUp then
      if s.debounceStartTime == 0 then Debounce(false, Stamp(now))
      else if Elapsed(now, s.debounceStartTime) >= s.debounceDelay then Debounce(true, 0)
      else Debounce(false, s.debounceStartTime)
    else
      Debounce(false, 0)
  }

  /** Result of `determineButtonState`: the next state and the new `debounceStartTime`. */
  datatype Next = Next(state: Enums, timer: u16)

  /**
   * `determineButtonState`: an inactive button becomes active on a DOWN
   * sample once `onClickInterval` has passed since the last click, and does
   * not touch the debounce timer; any other state drops to inactive exactly
   * when `checkIfReleased` confirms the release.
   */
  function NextState(s: Snapshot, v: Enums, now: u32): (n: Next)
    ensures n.state == StateInactive || n.state == StateActive || n.state == s.state
    ensures s.state == StateInactive ==>
      && n.timer == s.debounceStartTime
      && (n.state == StateActive <==> v == ButtonDown && Elapsed(now, s.lastClickTime) >= s.onClickInterval)
      && IsMachineState(n.state)
    ensures s.state != StateInactive ==>
      && n.timer == Debounced(s, v, now).timer
      && (n.state == StateInactive <==> Debounced(s, v, now).released)
      && (n.state == StateInactive || n.state == s.state)
  {
    if s.state == StateInactive then
      var pressed := v == ButtonDown && Elapsed(now, s.lastClickTime) >= s.onClickInterval;
      Next(if pressed then StateActive else s.state, s.debounceStartTime)
    else
      var d := Debounced(s, v, now);
      Next(if d.released then StateInactive else s.state, d.timer)
  }

  /**
   * Result of one `update` call: the new fields, whether a click edge
   * (INACTIVE to ACTIVE) was counted, and whether the callback was invoked.
   */
  datatype Outcome = Outcome(after: Snapshot, clicked: bool, fired: bool)

  /** `update` has a sample to take: `pollInterval` has passed since the last one. */
  predicate Polls(s: Snapshot, now: u32)
  {
    Elapsed(now, s.lastPollTime) >= s.pollInterval
  }

  /**
   * The body of `update` after the throttle: sample, stamp the poll, advance
   * the machine, and on an INACTIVE to ACTIVE edge count the click, stamp it
   * and invoke the callback if one is set. Only the six dynamic fields can
   * change, and they change as follows.
   */
  function Poll(s: Snapshot, now: u32, level: Level): (o: Outcome)
    ensures o.after.lastPollTime == Stamp(now) && o.after.lastState == s.state
    ensures o.clicked <==> s.state == StateInactive && o.after.state == StateActive
    ensures o.clicked <==>
      && s.state == StateInactive
      && ReadButtonVal(s.resistorPull, level) == ButtonDown
      && Elapsed(now, s.lastClickTime) >= s.onClickInterval
    ensures o.after.clickCount == if o.clicked then Inc8(s.clickCount) else s.clickCount
    ensures o.after.lastClickTime == if o.clicked then Stamp(now) else s.lastClickTime
    ensures o.fired <==> o.clicked && s.onClick != Null
    ensures o.after.(state := s.state, lastState := s.lastState, clickCount := s.clickCount,
                     debounceStartTime := s.debounceStartTime, lastPollTime := s.lastPollTime,
                     lastClickTime := s.lastClickTime) == s
    ensures Consistent(s) ==> Consistent(o.after)
  {
    var v := ReadButtonVal(s.resistorPull, level);
    var n := NextState(s, v, now);
    var t := s.(lastPollTime := Stamp(now), lastState := s.state, state := n.state, debounceStartTime := n.timer);
    if t.lastState != t.state && t.lastState == StateInactive && t.state == StateActive then
      Outcome(t.(clickCount := Inc8(t.clickCount), lastClickTime := Stamp(now)), true, t.onClick != Null)
    else
      Outcome(t, false, false)
  }

  /**
   * One `update` call: a call that comes before `pollInterval` has passed
   * since the last poll changes nothing and fires nothing; any other call
   * polls. Every call keeps the button consistent.
   */
  function Tick(s: Snapshot, now: u32, level: Level): (o: Outcome)
    ensures !Polls(s, now) ==> o == Outcome(s, false, false)
    ensures Polls(s, now) ==> o == Poll(s, now, level)
    ensures o.clicked ==> Polls(s, now) && o.after.lastClickTime == o.after.lastPollTime == Stamp(now)
    ensures Consistent(s) ==> Consistent(o.after)
  {
    if Elapsed(now, s.lastPollTime) < s.pollInterval then Outcome(s, false, false) else Poll(s, now, level)
  }

  /**
   * An active button that reads DOWN stays active with its debounce timer
   * stopped, however the timer stood: contact bounce cannot confirm a release.
   */
  lemma DownKeepsActive(s: Snapshot, now: u32, level: Level)
    requires s.state == StateActive && Polls(s, now)
    requires ReadButtonVal(s.resistorPull, level) == ButtonDown
    ensures var o := Tick(s, now, level);
      o.after.state == StateActive && o.after.debounceStartTime == 0 && !o.clicked
  {
  }

  /**
   * Because the last poll time is stored in 16 bits but subtracted from a
   * 32-bit clock, once the clock passes 65535 + 255 every `update` call
   * polls, whatever `pollInterval` says.
   */
  lemma ThrottleLapsesPast16Bits(s: Snapshot, now: u32)
    requires now >= (U16 - 1) + (U8 - 1)
    ensures Polls(s, now)
  {
  }

  /**
   * For the same reason, once the clock passes 65535 + `onClickInterval`,
   * the minimum time between clicks no longer holds a press back.
   */
  lemma ClickGuardLapsesPast16Bits(s: Snapshot, now: u32, level: Level)
    requires s.state == StateInactive && Polls(s, now)
    requires ReadButtonVal(s.resistorPull, level) == ButtonDown
    requires now >= (U16 - 1) + s.onClickInterval
    ensures Tick(s, now, level).clicked
  {
  }

  /**
   * The debounce timer is stored in 16 bits too, so once the clock passes
   * 65535 + 255 a running timer confirms the release on the next UP sample,
   * whatever `debounceDelay` says.
   */
  lemma DebounceLapsesPast16Bits(s: Snapshot, now: u32, level: Level)
    requires s.state == StateActive && s.debounceStartTime != 0 && Polls(s, now)
    requires ReadButtonVal(s.resistorPull, level) == ButtonUp
    requires now >= (U16 - 1) + (U8 - 1)
    ensures Tick(s, now, level).after.state == StateInactive
  {
  }

  /**
   * `lastClickTime` starts at 0, so no click can be counted before the
   * clock reaches `onClickInterval`, not even the first one.
   */
  lemma NoClickBeforeFirstInterval(s: Snapshot, now: u32, level: Level)
    requires s.lastClickTime == 0 && now < s.onClickInterval
    ensures !Tick(s, now, level).clicked
  {
  }
}
