/**
 * The `Button` class: the fields of Button.h, updated in place by the
 * methods of Button.cpp. `millis()` and `digitalRead()` are not called;
 * `Update` takes their values as `now` and `level`. Each method is proved
 * to do to the fields what the corresponding function of `ButtonSpec`
 * does to a `Snapshot`.
 */
module Buttons {
  import opened FixedWidth
  import opened ButtonSpec

  class Button {
    var onClick: OnClick
    var state: Enums
    var lastState: Enums
    var clickCount: u8
    var debounceStartTime: u16
    var lastPollTime: u16
    var lastClickTime: u16
    var debounceDelay: u8
    var pollInterval: u8
    var onClickInterval: u16
    var pinAddress: u8
    var resistorPull: u8

    /** The number of INACTIVE to ACTIVE edges since construction. */
    ghost var clicks: nat
    /** The callbacks invoked since construction, in order. */
    ghost var invoked: seq<nat>

    /** The fields as a value. */
    function Model(): Snapshot
      reads this
    {
      Snapshot(onClick, state, lastState, clickCount, debounceStartTime, lastPollTime, lastClickTime,
               debounceDelay, pollInterval, onClickInterval, pinAddress, resistorPull)
    }

    ghost predicate Valid()
      reads this
    {
      && Consistent(Model())
      && clickCount == clicks % U8
      && |invoked| <= clicks
      && (lastState == StateInactive && state == StateActive ==> clicks > 0)
    }

    /**
     * `Button(pinAddress, resistorPull)`: the default field values, with the
     * open-contact level HIGH when the internal pull-up is requested and the
     * argument itself otherwise. No click is pending.
     */
    constructor (pinAddress: u8, resistorPull: u8)
      ensures Valid()
      ensures Model() == Initial(pinAddress, resistorPull)
      ensures this.resistorPull == if resistorPull == INPUT_PULLUP then HIGH else resistorPull
      ensures clicks == 0 && invoked == [] && !IsClicked()
    {
      this.pinAddress := pinAddress;
      if resistorPull == INPUT_PULLUP {
        this.resistorPull := HIGH;
      } else {
        this.resistorPull := resistorPull;
      }
      onClick := Null;
      state, lastState := StateInactive, StateInactive;
      clickCount := 0;
      debounceStartTime, lastPollTime, lastClickTime := 0, 0, 0;
      debounceDelay, pollInterval, onClickInterval := 0, 0, 0;
      clicks, invoked := 0, [];
    }

    method SetOnClick(onClick: OnClick)
      requires Valid()
      modifies this`onClick
      ensures Valid() && Model() == old(Model()).(onClick := onClick)
    {
      this.onClick := onClick;
    }

    method SetDebounceDelay(ms: u8)
      requires Valid()
      modifies this`debounceDelay
      ensures Valid() && Model() == old(Model()).(debounceDelay := ms)
    {
      debounceDelay := ms;
    }

    method SetPollInterval(ms: u8)
      requires Valid()
      modifies this`pollInterval
      ensures Valid() && Model() == old(Model()).(pollInterval := ms)
    {
      pollInterval := ms;
    }

    method SetOnClickInterval(ms: u16)
      requires Valid()
      modifies this`onClickInterval
      ensures Valid() && Model() == old(Model()).(onClickInterval := ms)
    {
      onClickInterval := ms;
    }

    /**
     * `stateTransition`: whether the last two states are the given pair. In
     * a valid button only a pair of machine states can match.
     */
    function StateTransition(from: Enums, to: Enums): (r: bool)
      reads this
      ensures r <==> lastState == from && state == to
      ensures r && Valid() ==> IsMachineState(from) && IsMachineState(to)
    {
      lastState == from && state == to
    }

    /**
     * `isClicked`: whether the last poll took the button from INACTIVE to
     * ACTIVE. Reading it changes nothing; in a valid button a pending click
     * has been counted and was stamped by the last poll.
     */
    function IsClicked(): (r: bool)
      reads this
      ensures r <==> lastState == StateInactive && state == StateActive
      ensures r && Valid() ==> clicks > 0 && lastClickTime == lastPollTime
    {
      StateTransition(StateInactive, StateActive)
    }

    /** `getClickCount`: the number of clicks since construction, modulo 256. */
    function GetClickCount(): (r: nat)
      reads this
      ensures r < U8
      ensures Valid() ==> r == clicks % U8
    {
      clickCount
    }

    /** `checkIfReleased`: updates only the debounce timer, as `Debounced` says. */
    method CheckIfReleased(buttonVal: Enums, now: u32) returns (released: bool)
      modifies this`debounceStartTime
      ensures Debounce(released, debounceStartTime) == Debounced(old(Model()), buttonVal, now)
    {
      if buttonVal == ButtonUp {
        if debounceStartTime == 0 {
          debounceStartTime := Stamp(now);
        } else if Elapsed(now, debounceStartTime) >= debounceDelay {
          debounceStartTime := 0;
          return true;
        }
      } else {
        debounceStartTime := 0;
      }
      return false;
    }

    /** `determineButtonState`: the next state, and only the debounce timer changes, as `NextState` says. */
    method DetermineButtonState(buttonVal: Enums, now: u32) returns (next: Enums)
      modifies this`debounceStartTime
      ensures Next(next, debounceStartTime) == NextState(old(Model()), buttonVal, now)
    {
      if state == StateInactive {
        if buttonVal == ButtonDown && Elapsed(now, lastClickTime) >= onClickInterval {
          return StateActive;
        }
      } else {
        var released := CheckIfReleased(buttonVal, now);
        if released {
          return StateInactive;
        }
      }
      return state;
    }

    /**
     * `update`: the fields become what `Tick` says, `fired` tells whether the
     * callback was invoked, the ghost click count grows by one exactly on a
     * click edge, and the invoked callback is the one that was set.
     */
    method Update(now: u32, level: Level) returns (fired: bool)
      requires Valid()
      modifies this
      ensures Valid()
      ensures Model() == Tick(old(Model()), now, level).after
      ensures fired == Tick(old(Model()), now, level).fired
      ensures clicks == old(clicks) + if Tick(old(Model()), now, level).clicked then 1 else 0
      ensures invoked == if fired then old(invoked) + [onClick.id] else old(invoked)
    {
      fired := false;
      if Elapsed(now, lastPollTime) < pollInterval {
        return;
      }

      var buttonVal := ReadButtonVal(resistorPull, level);
      lastPollTime := Stamp(now);

      lastState := state;
      state := DetermineButtonState(buttonVal, now);

      if lastState != state {
        if StateTransition(StateInactive, StateActive) {
          Inc8Counts(clicks);
          clickCount := Inc8(clickCount);
          clicks := clicks + 1;
          lastClickTime := Stamp(now);
          if onClick != Null {
            invoked := invoked + [onClick.id];
            fired := true;
          }
        }
      }
    }
  }

  /**
   * A run of calls with the internal pull-up (pressed reads LOW), a 10 ms
   * poll interval, a 50 ms debounce delay and a 200 ms minimum between
   * clicks: a press held from boot is counted only when the clock reaches
   * 200 ms; the release is confirmed 50 ms after the first HIGH sample; a
   * second press 150 ms after the first click is ignored and a third, 250 ms
   * after it, is counted.
   */
  method PullUpScenario() returns (pressClicked: bool, releasedAt250: bool, releasedAt260: bool,
                                   secondClicked: bool, count: nat)
    ensures !pressClicked && !releasedAt250 && releasedAt260 && !secondClicked && count == 2
  {
    var b := new Button(7, INPUT_PULLUP);
    b.SetPollInterval(10);
    b.SetDebounceDelay(50);
    b.SetOnClickInterval(200);
    var fired := b.Update(5, LOW);     // throttled: 5 ms since the poll stamp 0
    fired := b.Update(10, LOW);        // polls, but the minimum click interval has not passed
    pressClicked := b.IsClicked();
    fired := b.Update(200, LOW);       // the click
    assert b.IsClicked() && b.GetClickCount() == 1;
    fired := b.Update(210, HIGH);      // first HIGH sample starts the release timer
    fired := b.Update(250, HIGH);
    releasedAt250 := b.state == StateInactive;
    fired := b.Update(260, HIGH);      // 50 ms held: released
    releasedAt260 := b.state == StateInactive;
    fired := b.Update(350, LOW);       // 150 ms after the click: ignored
    secondClicked := b.IsClicked();
    fired := b.Update(360, HIGH);
    fired := b.Update(450, LOW);       // 250 ms after the click: counted
    assert b.IsClicked();
    count := b.GetClickCount();
  }
}
