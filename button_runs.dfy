/**
 * Sequences of `update` calls. A run feeds a button one reading (a clock
 * value and a pin level) per call; the lemmas here are what the code
 * promises about whole runs: clicks are counted modulo 256, the callback
 * fires once per counted click, two clicks are `onClickInterval` apart, and
 * a release is confirmed exactly when the button has read UP for
 * `debounceDelay` milliseconds with no DOWN in between, with elapsed time
 * measured as `update` measures it.
 */
module ButtonRuns {
  import opened FixedWidth
  import opened ButtonSpec

  /** What one `update` call sees: `millis()` and `digitalRead()`. */
  datatype Reading = Reading(now: u32, level: Level)

  function Front(ticks: seq<Reading>): seq<Reading>
    requires ticks != []
  {
    ticks[..|ticks| - 1]
  }

  function Last(ticks: seq<Reading>): Reading
    requires ticks != []
  {
    ticks[|ticks| - 1]
  }

  /** The outcome of the last call of a non-empty run. */
  function LastTick(s: Snapshot, ticks: seq<Reading>): Outcome
    requires ticks != []
    decreases |ticks|, 0
  {
    Tick(Run(s, Front(ticks)), Last(ticks).now, Last(ticks).level)
  }

  /**
   * The button after a run of `update` calls. Configuration never changes
   * during a run, and consistency is kept throughout.
   */
  function Run(s: Snapshot, ticks: seq<Reading>): (t: Snapshot)
    decreases |ticks|, 1
    ensures t.onClick == s.onClick && t.pinAddress == s.pinAddress && t.resistorPull == s.resistorPull
    ensures t.debounceDelay == s.debounceDelay && t.pollInterval == s.pollInterval
    ensures t.onClickInterval == s.onClickInterval
    ensures Consistent(s) ==> Consistent(t)
  {
    if ticks == [] then s else LastTick(s, ticks).after
  }

  /** A run extended by one call ends with that call. */
  lemma RunSnoc(s: Snapshot, ticks: seq<Reading>, r: Reading)
    ensures Run(s, ticks + [r]) == Tick(Run(s, ticks), r.now, r.level).after
  {
    assert Front(ticks + [r]) == ticks;
  }

  /** The number of INACTIVE to ACTIVE edges during a run. */
  function Clicks(s: Snapshot, ticks: seq<Reading>): nat
    decreases |ticks|
  {
    if ticks == [] then 0 else Clicks(s, Front(ticks)) + (if LastTick(s, ticks).clicked then 1 else 0)
  }

  /** The number of callback invocations during a run. */
  function Fires(s: Snapshot, ticks: seq<Reading>): nat
    decreases |ticks|
  {
    if ticks == [] then 0 else Fires(s, Front(ticks)) + (if LastTick(s, ticks).fired then 1 else 0)
  }

  /** `clickCount` is 8 bits wide: after a run it has grown by the number of edges, modulo 256. */
  lemma {:induction false} RunCountsClicks(s: Snapshot, ticks: seq<Reading>)
    ensures Run(s, ticks).clickCount == (s.clickCount + Clicks(s, ticks)) % U8
  {
    if ticks != [] {
      RunCountsClicks(s, Front(ticks));
      if LastTick(s, ticks).clicked {
        Inc8Counts(s.clickCount + Clicks(s, Front(ticks)));
      }
    }
  }

  /** From construction, `clickCount` is the number of clicks so far, modulo 256. */
  lemma ClickCountFromConstruction(pinAddress: u8, requested: u8, ticks: seq<Reading>)
    ensures Run(Initial(pinAddress, requested), ticks).clickCount == Clicks(Initial(pinAddress, requested), ticks) % U8
  {
    RunCountsClicks(Initial(pinAddress, requested), ticks);
  }

  /** No callback ever fires while none is set; with one set, it fires once per click. */
  lemma {:induction false} RunFires(s: Snapshot, ticks: seq<Reading>)
    ensures Fires(s, ticks) == if s.onClick == Null then 0 else Clicks(s, ticks)
  {
    if ticks != [] {
      RunFires(s, Front(ticks));
    }
  }

  /** Without a click, the stamp of the last click stays where it was. */
  lemma {:induction false} QuietRunKeepsClickStamp(s: Snapshot, ticks: seq<Reading>)
    requires Clicks(s, ticks) == 0
    ensures Run(s, ticks).lastClickTime == s.lastClickTime
  {
    if ticks != [] {
      QuietRunKeepsClickStamp(s, Front(ticks));
    }
  }

  /**
   * The minimum time between clicks: the first click of a run comes at
   * least `onClickInterval` milliseconds (as `update` measures them) after
   * the last click stamped before the run.
   */
  lemma ClickSpacing(s: Snapshot, ticks: seq<Reading>)
    requires ticks != [] && Clicks(s, Front(ticks)) == 0 && LastTick(s, ticks).clicked
    ensures Elapsed(Last(ticks).now, s.lastClickTime) >= s.onClickInterval
  {
    QuietRunKeepsClickStamp(s, Front(ticks));
  }

  /** Reading `r` means "released" for this button. */
  predicate IsUp(s: Snapshot, r: Reading)
  {
    ReadButtonVal(s.resistorPull, r.level) == ButtonUp
  }

  /** Every call of the run takes a sample (calls that do not poll change nothing). */
  ghost predicate EveryTickPolls(s: Snapshot, ticks: seq<Reading>)
  {
    forall k {:trigger Run(s, ticks[..k])} :: 0 <= k < |ticks| ==> Polls(Run(s, ticks[..k]), ticks[k].now)
  }

  /** The button is active before and after every call of the run. */
  ghost predicate StaysActive(s: Snapshot, ticks: seq<Reading>)
  {
    forall k {:trigger Run(s, ticks[..k])} :: 0 <= k <= |ticks| ==> Run(s, ticks[..k]).state == StateActive
  }

  lemma FrontPrefixes(ticks: seq<Reading>)
    requires ticks != []
    ensures forall k :: 0 <= k <= |Front(ticks)| ==> Front(ticks)[..k] == ticks[..k]
    ensures ticks[..|Front(ticks)|] == Front(ticks) && ticks[..|ticks|] == ticks
  {
  }

  lemma EveryTickPollsFront(s: Snapshot, ticks: seq<Reading>)
    requires ticks != [] && EveryTickPolls(s, ticks)
    ensures EveryTickPolls(s, Front(ticks)) && Polls(Run(s, Front(ticks)), Last(ticks).now)
  {
    var f := Front(ticks);
    FrontPrefixes(ticks);
    forall k | 0 <= k < |f| ensures Polls(Run(s, f[..k]), f[k].now) {
      assert f[..k] == ticks[..k];
    }
    assert ticks[..|f|] == f;
  }

  lemma StaysActiveFront(s: Snapshot, ticks: seq<Reading>)
    requires ticks != [] && StaysActive(s, ticks)
    ensures StaysActive(s, Front(ticks)) && Run(s, Front(ticks)).state == StateActive
    ensures Run(s, ticks).state == StateActive
  {
    var f := Front(ticks);
    FrontPrefixes(ticks);
    forall k | 0 <= k <= |f| ensures Run(s, f[..k]).state == StateActive {
      assert f[..k] == ticks[..k];
    }
    StaysActiveAtEnd(s, f);
    StaysActiveAtEnd(s, ticks);
  }

  lemma StaysActiveAtEnd(s: Snapshot, ticks: seq<Reading>)
    requires StaysActive(s, ticks)
    ensures Run(s, ticks).state == StateActive
  {
    assert ticks[..|ticks|] == ticks;
  }

  /** A polled call on an active button does what `checkIfReleased` says to the timer and the state. */
  lemma ActivePoll(p: Snapshot, r: Reading)
    requires p.state == StateActive && Polls(p, r.now)
    ensures var d := Debounced(p, ReadButtonVal(p.resistorPull, r.level), r.now);
      var o := Tick(p, r.now, r.level);
      o.after.debounceStartTime == d.timer && (o.after.state == StateInactive <==> d.released)
  {
  }

  /**
   * While the button stays active, a running debounce timer holds the stamp
   * of some earlier sample that read UP and was followed only by UP samples.
   */
  lemma {:induction false} RunningTimerMeansHeldRelease(s: Snapshot, ticks: seq<Reading>)
    requires s.state == StateActive && s.debounceStartTime == 0
    requires EveryTickPolls(s, ticks) && StaysActive(s, ticks)
    ensures var timer := Run(s, ticks).debounceStartTime;
      timer == 0 || exists j :: 0 <= j < |ticks| && timer == Stamp(ticks[j].now) &&
                                forall k :: j <= k < |ticks| ==> IsUp(s, ticks[k])
  {
    if ticks != [] {
      var f, r := Front(ticks), Last(ticks);
      EveryTickPollsFront(s, ticks);
      StaysActiveFront(s, ticks);
      RunningTimerMeansHeldRelease(s, f);
      var p := Run(s, f);
      ActivePoll(p, r);
      var d := Debounced(p, ReadButtonVal(p.resistorPull, r.level), r.now);
      if IsUp(s, r) && d.timer != 0 && p.debounceStartTime != 0 {
        var j :| 0 <= j < |f| && p.debounceStartTime == Stamp(f[j].now) &&
                 forall k :: j <= k < |f| ==> IsUp(s, f[k]);
        UpThroughLast(s, ticks, j);
        assert ticks[j] == f[j];
      }
    }
  }

  /**
   * A release is confirmed only after a sustained release: if an active
   * button (timer stopped) first drops to inactive on the last call of a
   * run, some earlier sample read UP at a time whose stamp is not the
   * "stopped" value 0, every sample since then read UP, and at least
   * `debounceDelay` milliseconds have passed since it.
   */
  lemma ReleaseNeedsHeldRelease(s: Snapshot, ticks: seq<Reading>)
    requires s.state == StateActive && s.debounceStartTime == 0
    requires ticks != [] && EveryTickPolls(s, ticks) && StaysActive(s, Front(ticks))
    requires Run(s, ticks).state == StateInactive
    ensures exists j :: 0 <= j < |ticks| - 1 && Stamp(ticks[j].now) != 0 &&
                        Elapsed(Last(ticks).now, Stamp(ticks[j].now)) >= s.debounceDelay &&
                        forall k :: j <= k < |ticks| ==> IsUp(s, ticks[k])
  {
    var f := Front(ticks);
    EveryTickPollsFront(s, ticks);
    RunningTimerMeansHeldRelease(s, f);
    StaysActiveAtEnd(s, f);
    var timer := LastCallReleases(s, ticks);
    var j :| 0 <= j < |f| && timer == Stamp(f[j].now) && forall k :: j <= k < |f| ==> IsUp(s, f[k]);
    UpThroughLast(s, ticks, j);
    assert ticks[j] == f[j];
  }

  /** The last call of a run dropped an active button to inactive: what the timer held then. */
  lemma LastCallReleases(s: Snapshot, ticks: seq<Reading>) returns (timer: u16)
    requires ticks != [] && Polls(Run(s, Front(ticks)), Last(ticks).now)
    requires Run(s, Front(ticks)).state == StateActive && Run(s, ticks).state == StateInactive
    ensures timer == Run(s, Front(ticks)).debounceStartTime
    ensures timer != 0 && Elapsed(Last(ticks).now, timer) >= s.debounceDelay && IsUp(s, Last(ticks))
  {
    var p, r := Run(s, Front(ticks)), Last(ticks);
    ActivePoll(p, r);
    timer := p.debounceStartTime;
  }

  /** UP from sample `j` to the end of the front, and UP at the last one, is UP from `j` to the end. */
  lemma UpThroughLast(s: Snapshot, ticks: seq<Reading>, j: nat)
    requires ticks != [] && j < |ticks| && IsUp(s, Last(ticks))
    requires forall k :: j <= k < |Front(ticks)| ==> IsUp(s, Front(ticks)[k])
    ensures forall k :: j <= k < |ticks| ==> IsUp(s, ticks[k])
  {
    var f := Front(ticks);
    forall k | j <= k < |ticks| ensures IsUp(s, ticks[k]) {
      if k < |f| { assert ticks[k] == f[k]; }
    }
  }

  /**
   * Holding the button released from the first sample of a run keeps it
   * active, with the timer at that sample's stamp, for as long as the
   * delay has not yet passed.
   */
  lemma {:induction false} HeldReleaseKeepsTimer(s: Snapshot, ticks: seq<Reading>)
    requires s.state == StateActive && s.debounceStartTime == 0
    requires ticks != [] && EveryTickPolls(s, ticks) && Stamp(ticks[0].now) != 0
    requires forall k :: 0 <= k < |ticks| ==> IsUp(s, ticks[k])
    requires forall k :: 0 < k < |ticks| ==> Elapsed(ticks[k].now, Stamp(ticks[0].now)) < s.debounceDelay
    ensures Run(s, ticks).state == StateActive && Run(s, ticks).debounceStartTime == Stamp(ticks[0].now)
  {
    var f, r := Front(ticks), Last(ticks);
    EveryTickPollsFront(s, ticks);
    if f != [] {
      HeldReleaseKeepsTimer(s, f);
    }
    ActivePoll(Run(s, f), r);
  }

  /**
   * `debounceDelay` is honoured exactly: when an active button is held
   * released from the first sample of a run (stamped at a nonzero value),
   * and no sample before the last has seen the delay pass, the last sample
   * confirms the release exactly when the delay has passed by then and it
   * is not the sample that started the timer.
   */
  lemma ReleaseConfirmedOnceDelayPassed(s: Snapshot, ticks: seq<Reading>)
    requires s.state == StateActive && s.debounceStartTime == 0
    requires ticks != [] && EveryTickPolls(s, ticks) && Stamp(ticks[0].now) != 0
    requires forall k :: 0 <= k < |ticks| ==> IsUp(s, ticks[k])
    requires forall k :: 0 < k < |ticks| - 1 ==> Elapsed(ticks[k].now, Stamp(ticks[0].now)) < s.debounceDelay
    ensures Run(s, ticks).state == StateInactive <==>
            |ticks| >= 2 && Elapsed(Last(ticks).now, Stamp(ticks[0].now)) >= s.debounceDelay
  {
    var f, r := Front(ticks), Last(ticks);
    EveryTickPollsFront(s, ticks);
    if f != [] {
      HeldReleaseKeepsTimer(s, f);
    }
    ActivePoll(Run(s, f), r);
  }

  /**
   * With the default `debounceDelay` of 0 (and every call polling, as with
   * the default `pollInterval` of 0), the first UP sample only starts the
   * timer and the second confirms the release.
   */
  lemma DefaultDelayReleasesOnSecondUp(s: Snapshot, first: Reading, second: Reading)
    requires s.state == StateActive && s.debounceStartTime == 0 && s.debounceDelay == 0 && s.pollInterval == 0
    requires IsUp(s, first) && IsUp(s, second) && Stamp(first.now) != 0
    ensures Run(s, [first]).state == StateActive
    ensures Run(s, [first, second]).state == StateInactive
  {
    RunSnoc(s, [], first);
    RunSnoc(s, [first], second);
    assert [] + [first] == [first] && [first] + [second] == [first, second];
  }

  /**
   * The "stopped" value 0 is also a real stamp: an UP sample taken when the
   * low 16 bits of the clock are 0 starts a timer that reads as stopped, so
   * whatever the delay, the next UP sample only restarts it.
   */
  lemma ZeroStampPostponesRelease(s: Snapshot, first: Reading, second: Reading)
    requires s.state == StateActive && s.debounceStartTime == 0 && s.pollInterval == 0
    requires IsUp(s, first) && IsUp(s, second) && Stamp(first.now) == 0
    ensures Run(s, [first]).debounceStartTime == 0
    ensures Run(s, [first, second]).state == StateActive
    ensures Run(s, [first, second]).debounceStartTime == Stamp(second.now)
  {
    RunSnoc(s, [], first);
    RunSnoc(s, [first], second);
    assert [] + [first] == [first] && [first] + [second] == [first, second];
  }
}
