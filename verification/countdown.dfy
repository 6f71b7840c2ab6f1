/**
 * The countdown engine of the landing page's timer component.
 *
 * A tick reads the clock (`now`, an explicit input here), splits the
 * remaining milliseconds `target - now` into days, hours, minutes, seconds
 * and hundredths, checks the milestone table, raises the urgency effects,
 * and either publishes the new value or latches completion. Callbacks,
 * sounds, vibration and animation values are recorded as `Effect`s in the
 * order the component triggers them.
 */
module Countdown {
  import opened Shared
  import Decimal

  const MsPerSecond: nat := 1000
  const MsPerMinute: nat := 60_000        // 1000 * 60
  const MsPerHour: nat := 3_600_000       // 1000 * 60 * 60
  const MsPerDay: nat := 86_400_000       // 1000 * 60 * 60 * 24

  /**
   * The displayed remaining time. The field the component calls
   * `milliseconds` holds hundredths of a second.
   */
  datatype TimeLeft = TimeLeft(days: nat, hours: nat, minutes: nat, seconds: nat, milliseconds: nat)

  const Zero := TimeLeft(0, 0, 0, 0, 0)

  /** Every field other than `days` is within its clock-face bound. */
  predicate InRange(t: TimeLeft) {
    t.hours <= 23 && t.minutes <= 59 && t.seconds <= 59 && t.milliseconds <= 99
  }

  /** The whole seconds a value denotes. */
  function WholeSeconds(t: TimeLeft): nat {
    t.days * 86400 + t.hours * 3600 + t.minutes * 60 + t.seconds
  }

  // ---------------------------------------------------------------------
  // Arithmetic

  /** A positive multiple of a non-negative number is at least that number. */
  lemma MulAtLeast(x: int, b: int)
    requires x >= 1 && b >= 0
    ensures x * b >= b
  {
  }

  lemma DivModUnique(a: int, b: int, q: int, r: int)
    requires b > 0 && 0 <= r < b && a == q * b + r
    ensures a / b == q && a % b == r
  {
    var q', r' := a / b, a % b;
    assert a == q' * b + r';
    if q' > q {
      assert (q' - q) * b == q' * b - q * b;
      MulAtLeast(q' - q, b);
    } else if q' < q {
      assert (q - q') * b == q * b - q' * b;
      MulAtLeast(q - q', b);
    }
  }

  /** Reducing modulo a multiple of `m` first does not change the remainder modulo `m`. */
  lemma ModOfMod(a: nat, m: nat, k: nat)
    requires m > 0 && k > 0
    ensures a % (m * k) % m == a % m
  {
    var big := m * k;
    var r := a % big;
    var q := a / big;
    assert a == q * big + r;
    assert r == (r / m) * m + r % m;
    assert a == (q * k + r / m) * m + r % m;
    DivModUnique(a, m, q * k + r / m, r % m);
  }

  /**
   * The split of a positive millisecond difference: the component's
   * floor divisions by a day, an hour, a minute and a second, each applied
   * to the remainder of the larger unit, and hundredths from the last
   * 1000 milliseconds.
   */
  function Decompose(diff: int): (t: TimeLeft)
    requires diff > 0
    ensures InRange(t)
    ensures t.days * MsPerDay + t.hours * MsPerHour + t.minutes * MsPerMinute
            + t.seconds * MsPerSecond + diff % 1000 == diff
    ensures WholeSeconds(t) == diff / 1000
    ensures t.milliseconds * 10 <= diff % 1000 < t.milliseconds * 10 + 10
  {
    var t := TimeLeft(diff / MsPerDay,
                      (diff % MsPerDay) / MsPerHour,
                      (diff % MsPerHour) / MsPerMinute,
                      (diff % MsPerMinute) / MsPerSecond,
                      (diff % 1000) / 10);
    DecomposeFacts(diff, t);
    t
  }

  lemma DecomposeFacts(diff: nat, t: TimeLeft)
    requires t == TimeLeft(diff / MsPerDay, (diff % MsPerDay) / MsPerHour,
                           (diff % MsPerHour) / MsPerMinute,
                           (diff % MsPerMinute) / MsPerSecond, (diff % 1000) / 10)
    ensures InRange(t)
    ensures t.days * MsPerDay + t.hours * MsPerHour + t.minutes * MsPerMinute
            + t.seconds * MsPerSecond + diff % 1000 == diff
    ensures WholeSeconds(t) == diff / 1000
    ensures t.milliseconds * 10 <= diff % 1000 < t.milliseconds * 10 + 10
  {
    ModOfMod(diff, MsPerHour, 24);
    ModOfMod(diff, MsPerMinute, 60);
    ModOfMod(diff, MsPerSecond, 60);
    var rd, rh, rm, rs := diff % MsPerDay, diff % MsPerHour, diff % MsPerMinute, diff % 1000;
    assert diff == t.days * MsPerDay + rd;
    assert rd == t.hours * MsPerHour + rh;
    assert rh == t.minutes * MsPerMinute + rm;
    assert rm == t.seconds * MsPerSecond + rs;
    assert rd < MsPerDay;
    assert WholeSeconds(t) * 1000 + rs == diff;
    DivModUnique(diff, 1000, WholeSeconds(t), rs);
  }

  /**
   * The split is the only one: a value within range plus fewer than 1000
   * leftover milliseconds decomposes back to itself (hundredths aside,
   * which are read from the leftover).
   */
  lemma {:induction false} DecomposeUnique(t: TimeLeft, rest: nat)
    requires InRange(t) && rest < 1000
    requires WholeSeconds(t) * 1000 + rest > 0
    ensures Decompose(WholeSeconds(t) * 1000 + rest) == t.(milliseconds := rest / 10)
  {
    var diff := WholeSeconds(t) * 1000 + rest;
    var u := Decompose(diff);
    DivModUnique(diff, 1000, WholeSeconds(t), rest);
    var secs := WholeSeconds(t);
    // both splits denote the same whole seconds; peel off one unit at a time
    assert u.days * 86400 + u.hours * 3600 + u.minutes * 60 + u.seconds == secs;
    var below := t.hours * 3600 + t.minutes * 60 + t.seconds;
    assert below < 86400;
    DivModUnique(secs, 86400, t.days, below);
    DivModUnique(secs, 86400, u.days, u.hours * 3600 + u.minutes * 60 + u.seconds);
    DivModUnique(below, 3600, t.hours, t.minutes * 60 + t.seconds);
    DivModUnique(below, 3600, u.hours, u.minutes * 60 + u.seconds);
    DivModUnique(t.minutes * 60 + t.seconds, 60, t.minutes, t.seconds);
    DivModUnique(t.minutes * 60 + t.seconds, 60, u.minutes, u.seconds);
    DivModUnique(rest, 10, u.milliseconds, rest - u.milliseconds * 10);
  }

  /** 90 061 001 ms is 1 day, 1 hour, 1 minute and 1.001 seconds. */
  lemma DecomposeExample()
    ensures Decompose(90061001) == TimeLeft(1, 1, 1, 1, 0)
  {
  }

  // ---------------------------------------------------------------------
  // Milestones

  datatype Milestone = Milestone(threshold: int, name: string)

  /** The milestone table, in the order the component scans it. */
  const Milestones: seq<Milestone> := [
    Milestone(86400, "1 day remaining"),
    Milestone(3600, "1 hour remaining"),
    Milestone(600, "10 minutes remaining"),
    Milestone(60, "1 minute remaining"),
    Milestone(10, "10 seconds remaining")
  ]

  /** A table entry fires when it is hit exactly and is not already the current one. */
  predicate Fires(m: Milestone, totalSeconds: int, current: string) {
    totalSeconds == m.threshold && current != m.name
  }

  /** The scan with `break`: the first entry of `table` that fires, if any. */
  function FirstFiring(table: seq<Milestone>, totalSeconds: int, current: string): (r: Option<nat>)
    ensures r.Some? ==> r.value < |table| && Fires(table[r.value], totalSeconds, current)
    ensures r.Some? ==> forall j :: 0 <= j < r.value ==> !Fires(table[j], totalSeconds, current)
    ensures r.None? ==> forall j :: 0 <= j < |table| ==> !Fires(table[j], totalSeconds, current)
  {
    if |table| == 0 then None
    else if Fires(table[0], totalSeconds, current) then Some(0)
    else match FirstFiring(table[1..], totalSeconds, current)
      case None => None
      case Some(i) => Some(i + 1)
  }

  /**
   * `checkMilestones`: the label that fires for `totalSeconds` given the
   * current milestone label, if any.
   */
  function CheckMilestones(totalSeconds: int, current: string): (r: Option<string>)
    ensures r.Some? <==>
      exists i :: 0 <= i < |Milestones| && Fires(Milestones[i], totalSeconds, current)
    ensures r.Some? ==>
      r.value != current &&
      exists i :: 0 <= i < |Milestones| && Milestones[i] == Milestone(totalSeconds, r.value)
  {
    match FirstFiring(Milestones, totalSeconds, current)
    case None => None
    case Some(i) => Some(Milestones[i].name)
  }

  /** The milestone label after a check: the fired one, else unchanged. */
  function NextMilestone(totalSeconds: int, current: string): string {
    match CheckMilestones(totalSeconds, current)
    case None => current
    case Some(fired) => fired
  }

  /** Thresholds are distinct, so a total can only ever fire its own label. */
  lemma MilestoneLabelDetermined(totalSeconds: int, current: string)
    ensures CheckMilestones(totalSeconds, current).Some? ==>
      forall i :: 0 <= i < |Milestones| && Milestones[i].threshold == totalSeconds ==>
        CheckMilestones(totalSeconds, current).value == Milestones[i].name
  {
  }

  /** Checking the same total a second time fires nothing and changes nothing. */
  lemma MilestoneIdempotent(totalSeconds: int, current: string)
    ensures CheckMilestones(totalSeconds, NextMilestone(totalSeconds, current)).None?
    ensures NextMilestone(totalSeconds, NextMilestone(totalSeconds, current))
            == NextMilestone(totalSeconds, current)
  {
    var next := NextMilestone(totalSeconds, current);
    if CheckMilestones(totalSeconds, current).Some? {
      MilestoneLabelDetermined(totalSeconds, current);
    }
    assert forall i :: 0 <= i < |Milestones| ==> !Fires(Milestones[i], totalSeconds, next);
  }

  // ---------------------------------------------------------------------
  // One tick

  /** The component's boolean props and the host capabilities a tick consults. */
  datatype Settings = Settings(
    showMilliseconds: bool,
    soundEnabled: bool,
    hapticFeedback: bool,
    glitchEffect: bool,
    canVibrate: bool,      // `'vibrate' in navigator`
    hasOnTick: bool,
    hasOnComplete: bool,
    hasOnMilestone: bool)

  datatype State = State(timeLeft: TimeLeft, prevTimeLeft: TimeLeft, isComplete: bool, currentMilestone: string)

  const Initial := State(Zero, Zero, false, "")

  /** What a tick does besides updating the state, in the order it does it. */
  datatype Effect =
    | MilestoneCallback(name: string, value: TimeLeft)
    | Pulse                 // pulse intensity set to full
    | Glitch                // glitch intensity set to a random level
    | TickSound
    | Vibrate
    | TickCallback(value: TimeLeft)
    | CompleteCallback
    | CompleteSound

  datatype Outcome = Outcome(continues: bool, state: State, effects: seq<Effect>)

  /** Effects of a positive tick whose whole-second total is `secs`. */
  function UrgencyEffects(o: Settings, secs: int): seq<Effect> {
    (if secs <= 60 then [Pulse] else [])
    + (if secs <= 60 && o.glitchEffect && secs <= 10 then [Glitch] else [])
    + (if o.soundEnabled && secs <= 10 && secs > 0 then [TickSound] else [])
    + (if o.hapticFeedback && secs <= 5 && o.canVibrate then [Vibrate] else [])
  }

  /**
   * Effects of a tick with time left, in order: the milestone callback,
   * the urgency effects, then `onTick` with the new value `t`.
   */
  function TickEffects(o: Settings, fired: Option<string>, t: TimeLeft, secs: int): seq<Effect> {
    (if fired.Some? && o.hasOnMilestone then [MilestoneCallback(fired.value, t)] else [])
    + UrgencyEffects(o, secs)
    + (if o.hasOnTick then [TickCallback(t)] else [])
  }

  /** Effects of latching completion. */
  function CompletionEffects(o: Settings): seq<Effect> {
    (if o.hasOnComplete then [CompleteCallback] else [])
    + (if o.soundEnabled then [CompleteSound] else [])
  }

  /**
   * `calculateTimeLeft`: one tick at clock reading `now`. The result's
   * `continues` is the value the component returns to its scheduler.
   */
  function CalculateTimeLeft(o: Settings, s: State, target: int, now: int): (r: Outcome)
    // the returned flag says whether time is left
    ensures r.continues <==> target - now > 0
    // time left: the new split is published and the old one kept as previous
    ensures target - now > 0 ==>
      && r.state.timeLeft == Decompose(target - now)
      && r.state.prevTimeLeft == s.timeLeft
      && r.state.isComplete == s.isComplete
      && r.state.currentMilestone == NextMilestone((target - now) / 1000, s.currentMilestone)
    // no time left: only the completion latch moves
    ensures target - now <= 0 ==> r.state == s.(isComplete := true)
  {
    var diff := target - now;
    if diff > 0 then
      var t := Decompose(diff);
      var totalSeconds := diff / 1000;
      var fired := CheckMilestones(totalSeconds, s.currentMilestone);
      Outcome(true,
              State(t, s.timeLeft, s.isComplete, NextMilestone(totalSeconds, s.currentMilestone)),
              TickEffects(o, fired, t, totalSeconds))
    else if !s.isComplete then
      Outcome(false, s.(isComplete := true), CompletionEffects(o))
    else
      Outcome(false, s, [])
  }

  lemma MembershipOfThree<T>(all: seq<T>, a: seq<T>, b: seq<T>, c: seq<T>)
    requires all == a + b + c
    ensures forall e :: e in all <==> e in a || e in b || e in c
  {
  }

  /** The urgency effects, by whole seconds left. */
  lemma UrgencyContents(o: Settings, secs: int)
    ensures var es := UrgencyEffects(o, secs);
      && (forall e :: e in es ==> e.Pulse? || e.Glitch? || e.TickSound? || e.Vibrate?)
      && (Pulse in es <==> secs <= 60)
      && (Glitch in es <==> o.glitchEffect && secs <= 10)
      && (TickSound in es <==> o.soundEnabled && 0 < secs <= 10)
      && (Vibrate in es <==> o.hapticFeedback && o.canVibrate && secs <= 5)
  {
    var p := if secs <= 60 then [Pulse] else [];
    var g := if secs <= 60 && o.glitchEffect && secs <= 10 then [Glitch] else [];
    var k := if o.soundEnabled && secs <= 10 && secs > 0 then [TickSound] else [];
    var v := if o.hapticFeedback && secs <= 5 && o.canVibrate then [Vibrate] else [];
    assert UrgencyEffects(o, secs) == (p + g + k) + v;
    MembershipOfThree(p + g + k, p, g, k);
  }

  /** The callbacks in the effect list of a tick with time left. */
  lemma TickCallbacks(o: Settings, fired: Option<string>, t: TimeLeft, secs: int)
    ensures var es := TickEffects(o, fired, t, secs);
      && (forall v :: TickCallback(v) in es <==> o.hasOnTick && v == t)
      && (forall n, v :: MilestoneCallback(n, v) in es <==> o.hasOnMilestone && fired == Some(n) && v == t)
      && CompleteCallback !in es && CompleteSound !in es
  {
    var announce := if fired.Some? && o.hasOnMilestone then [MilestoneCallback(fired.value, t)] else [];
    var report := if o.hasOnTick then [TickCallback(t)] else [];
    var es := TickEffects(o, fired, t, secs);
    UrgencyContents(o, secs);
    forall v ensures TickCallback(v) in es <==> o.hasOnTick && v == t {
      assert TickCallback(v) !in UrgencyEffects(o, secs);
    }
    forall n, v ensures MilestoneCallback(n, v) in es <==> o.hasOnMilestone && fired == Some(n) && v == t {
      assert MilestoneCallback(n, v) !in UrgencyEffects(o, secs);
    }
  }

  /** The urgency effects in the effect list of a tick with time left. */
  lemma TickUrgency(o: Settings, fired: Option<string>, t: TimeLeft, secs: int)
    ensures var es := TickEffects(o, fired, t, secs);
      && (Pulse in es <==> secs <= 60)
      && (Glitch in es <==> o.glitchEffect && secs <= 10)
      && (TickSound in es <==> o.soundEnabled && 0 < secs <= 10)
      && (Vibrate in es <==> o.hapticFeedback && o.canVibrate && secs <= 5)
  {
    UrgencyContents(o, secs);
  }

  /**
   * A tick with time left reports exactly the published value to `onTick`,
   * announces a milestone exactly when one fires, and never completes.
   */
  lemma TickReports(o: Settings, s: State, target: int, now: int)
    requires target - now > 0
    ensures var r := CalculateTimeLeft(o, s, target, now);
      && (TickCallback(r.state.timeLeft) in r.effects <==> o.hasOnTick)
      && (forall v :: TickCallback(v) in r.effects ==> v == r.state.timeLeft)
      && CompleteCallback !in r.effects && CompleteSound !in r.effects
      && (forall n, v :: MilestoneCallback(n, v) in r.effects ==>
            && o.hasOnMilestone && v == r.state.timeLeft && n == r.state.currentMilestone
            && CheckMilestones((target - now) / 1000, s.currentMilestone) == Some(n))
      && (o.hasOnMilestone && CheckMilestones((target - now) / 1000, s.currentMilestone).Some? ==>
            MilestoneCallback(r.state.currentMilestone, r.state.timeLeft) in r.effects)
  {
    var r := CalculateTimeLeft(o, s, target, now);
    var secs := (target - now) / 1000;
    var fired := CheckMilestones(secs, s.currentMilestone);
    assert r.effects == TickEffects(o, fired, r.state.timeLeft, secs);
    TickCallbacks(o, fired, r.state.timeLeft, secs);
  }

  /**
   * A tick without time left leaves the displayed values alone, latches
   * completion, and announces it only if it was not already latched.
   */
  lemma CompletionLatch(o: Settings, s: State, target: int, now: int)
    requires target - now <= 0
    ensures var r := CalculateTimeLeft(o, s, target, now);
      && (CompleteCallback in r.effects <==> !s.isComplete && o.hasOnComplete)
      && (CompleteSound in r.effects <==> !s.isComplete && o.soundEnabled)
      && (s.isComplete ==> r.effects == [])
      && multiset(r.effects)[CompleteCallback] <= 1
      && forall e :: e in r.effects ==> e == CompleteCallback || e == CompleteSound
  {
  }

  /**
   * The urgency rules of a tick, by whole seconds left: pulse within a
   * minute, glitch within ten seconds when enabled, a tick sound in the
   * last ten seconds when sound is on, vibration in the last five when
   * enabled and supported. None of them on a tick without time left.
   */
  lemma UrgencyRules(o: Settings, s: State, target: int, now: int)
    ensures var r := CalculateTimeLeft(o, s, target, now);
      var secs := (target - now) / 1000;
      && (Pulse in r.effects <==> target - now > 0 && secs <= 60)
      && (Glitch in r.effects <==> target - now > 0 && o.glitchEffect && secs <= 10)
      && (TickSound in r.effects <==> target - now > 0 && o.soundEnabled && 0 < secs <= 10)
      && (Vibrate in r.effects <==> target - now > 0 && o.hapticFeedback && o.canVibrate && secs <= 5)
  {
    var r := CalculateTimeLeft(o, s, target, now);
    if target - now > 0 {
      var secs := (target - now) / 1000;
      var fired := CheckMilestones(secs, s.currentMilestone);
      assert r.effects == TickEffects(o, fired, r.state.timeLeft, secs);
      TickUrgency(o, fired, r.state.timeLeft, secs);
    } else {
      CompletionLatch(o, s, target, now);
    }
  }

  // ---------------------------------------------------------------------
  // The timer loop

  /** The countdown's state together with whether a tick is pending. */
  datatype Timer = Timer(state: State, scheduled: bool)

  /**
   * Mounting: the first calculation runs at once, and the first tick is
   * scheduled whatever it returned.
   */
  function Mount(o: Settings, target: int, now: int): (r: (Timer, seq<Effect>))
    ensures r.0.scheduled
    ensures r.0.state.isComplete <==> target - now <= 0
    // with time left, the first value is displayed against an all-zero previous one
    ensures target - now > 0 ==>
      r.0.state.timeLeft == Decompose(target - now) && r.0.state.prevTimeLeft == Zero
    // mounted past its target, the display stays zero and completion is announced
    ensures target - now <= 0 ==>
      && r.0.state.timeLeft == Zero
      && (CompleteCallback in r.1 <==> o.hasOnComplete)
      && (CompleteSound in r.1 <==> o.soundEnabled)
  {
    var out := CalculateTimeLeft(o, Initial, target, now);
    if target - now <= 0 then
      CompletionLatch(o, Initial, target, now);
      (Timer(out.state, true), out.effects)
    else
      (Timer(out.state, true), out.effects)
  }

  /**
   * Pending ticks fire at the successive clock readings `readings`; each
   * tick reschedules itself exactly when it returned true. Readings after
   * the loop stopped are never seen.
   */
  function Run(o: Settings, tm: Timer, target: int, readings: seq<int>): (r: (Timer, seq<Effect>))
    decreases |readings|
  {
    if |readings| == 0 || !tm.scheduled then (tm, [])
    else
      var out := CalculateTimeLeft(o, tm.state, target, readings[0]);
      var rest := Run(o, Timer(out.state, out.continues), target, readings[1..]);
      (rest.0, out.effects + rest.1)
  }

  /** A tick reschedules itself exactly when it returns true. */
  lemma TickReschedules(o: Settings, tm: Timer, target: int, now: int)
    requires tm.scheduled
    ensures Run(o, tm, target, [now]).0.scheduled
            == CalculateTimeLeft(o, tm.state, target, now).continues
    ensures Run(o, tm, target, [now]).0.state
            == CalculateTimeLeft(o, tm.state, target, now).state
  {
    assert [now][1..] == [];
  }

  /**
   * Over any run of ticks the completion callback fires at most once, not
   * at all when the countdown was already complete, and only by completing.
   */
  lemma {:induction false} CompletionAtMostOnce(o: Settings, tm: Timer, target: int, readings: seq<int>)
    ensures multiset(Run(o, tm, target, readings).1)[CompleteCallback] <= 1
    ensures tm.state.isComplete ==> multiset(Run(o, tm, target, readings).1)[CompleteCallback] == 0
    ensures tm.state.isComplete ==> Run(o, tm, target, readings).0.state.isComplete
    ensures multiset(Run(o, tm, target, readings).1)[CompleteCallback] == 1 ==>
      Run(o, tm, target, readings).0.state.isComplete
    decreases |readings|
  {
    if |readings| > 0 && tm.scheduled {
      var out := CalculateTimeLeft(o, tm.state, target, readings[0]);
      var next := Timer(out.state, out.continues);
      CompletionAtMostOnce(o, next, target, readings[1..]);
      var rest := Run(o, next, target, readings[1..]);
      assert Run(o, tm, target, readings).1 == out.effects + rest.1;
      assert multiset(out.effects + rest.1) == multiset(out.effects) + multiset(rest.1);
      if target - readings[0] > 0 {
        TickReports(o, tm.state, target, readings[0]);
        assert multiset(out.effects)[CompleteCallback] == 0;
      } else {
        CompletionLatch(o, tm.state, target, readings[0]);
      }
    }
  }

  /** A running loop only stops by latching completion. */
  lemma {:induction false} StopsOnlyWhenComplete(o: Settings, tm: Timer, target: int, readings: seq<int>)
    requires tm.scheduled
    ensures !Run(o, tm, target, readings).0.scheduled ==> Run(o, tm, target, readings).0.state.isComplete
    decreases |readings|
  {
    if |readings| > 0 {
      var out := CalculateTimeLeft(o, tm.state, target, readings[0]);
      if out.continues {
        StopsOnlyWhenComplete(o, Timer(out.state, true), target, readings[1..]);
      }
    }
  }

  /**
   * In the first run of the countdown effect, where every tick reads the
   * current state, completion is announced at most once whatever the clock
   * does. Later runs of the effect reset `isComplete` and are not modelled.
   */
  lemma MountedCompletionOnce(o: Settings, target: int, now: int, readings: seq<int>)
    ensures
      var m := Mount(o, target, now);
      multiset(m.1 + Run(o, m.0, target, readings).1)[CompleteCallback] <= 1
  {
    var m := Mount(o, target, now);
    var rest := Run(o, m.0, target, readings).1;
    if target - now > 0 {
      TickReports(o, Initial, target, now);
      assert multiset(m.1)[CompleteCallback] == 0;
      CompletionAtMostOnce(o, m.0, target, readings);
    } else {
      CompletionLatch(o, Initial, target, now);
      CompletionAtMostOnce(o, m.0, target, readings);
      assert multiset(rest)[CompleteCallback] == 0;
    }
    assert multiset(m.1 + rest) == multiset(m.1) + multiset(rest);

  }

  // ---------------------------------------------------------------------
  // Display

  /** `formatNumber`: `String(n)` left-padded with `'0'` to two characters. */
  function FormatNumber(n: nat): (r: string)
    ensures n <= 9 ==> r == ['0', Decimal.DigitChar(n)]
    ensures n >= 10 ==> r == Decimal.Show(n)
    ensures |r| == if Decimal.DigitCount(n) < 2 then 2 else Decimal.DigitCount(n)
    ensures Decimal.AllDigits(r) && Decimal.Parse(r) == n
  {
    PaddedShow(n);
    Decimal.PadStart(Decimal.Show(n), 2, '0')
  }

  lemma PaddedShow(n: nat)
    ensures var r := Decimal.PadStart(Decimal.Show(n), 2, '0');
      && (n <= 9 ==> r == ['0'] + Decimal.Show(n))
      && Decimal.AllDigits(r) && Decimal.Parse(r) == n
  {
    var s := Decimal.Show(n);
    var r := Decimal.PadStart(s, 2, '0');
    Decimal.ParseShow(n);
    if n <= 9 {
      assert r == ['0'] + s;
      Decimal.ParseLeadingZero(s);
    }
  }

  /** One display cell: unit label, current and previous value, and its key. */
  datatype Unit = Unit(name: string, value: nat, prevValue: nat, key: string)

  /** The field of a `TimeLeft` a display key names. */
  function Field(t: TimeLeft, key: string): nat {
    match key
    case "days" => t.days
    case "hours" => t.hours
    case "minutes" => t.minutes
    case "seconds" => t.seconds
    case "milliseconds" => t.milliseconds
    case _ => 0
  }

  /** `units`: Days, Hours, Minutes, Seconds, then MS when hundredths are shown. */
  function Units(t: TimeLeft, prev: TimeLeft, showMilliseconds: bool): (r: seq<Unit>)
    ensures |r| == if showMilliseconds then 5 else 4
    ensures r[0].name == "Days" && r[1].name == "Hours"
    ensures r[2].name == "Minutes" && r[3].name == "Seconds"
    ensures showMilliseconds ==> r[4].name == "MS"
    // each label is bound to the field of the same name
    ensures r[0].key == "days" && r[1].key == "hours"
    ensures r[2].key == "minutes" && r[3].key == "seconds"
    ensures showMilliseconds ==> r[4].key == "milliseconds"
    ensures forall i :: 0 <= i < |r| ==>
      r[i].value == Field(t, r[i].key) && r[i].prevValue == Field(prev, r[i].key)
    ensures forall i, j :: 0 <= i < j < |r| ==> r[i].key != r[j].key
  {
    var base := [
      Unit("Days", t.days, prev.days, "days"),
      Unit("Hours", t.hours, prev.hours, "hours"),
      Unit("Minutes", t.minutes, prev.minutes, "minutes"),
      Unit("Seconds", t.seconds, prev.seconds, "seconds")
    ];
    if showMilliseconds then base + [Unit("MS", t.milliseconds, prev.milliseconds, "milliseconds")]
    else base
  }

  /**
   * Within a running countdown every shown cell has exactly two digits
   * except a day count of 100 or more.
   */
  lemma CellsTwoDigits(t: TimeLeft, prev: TimeLeft, showMilliseconds: bool)
    requires InRange(t) && t.days <= 99
    ensures forall u :: u in Units(t, prev, showMilliseconds) ==> |FormatNumber(u.value)| == 2
  {
  }
}
