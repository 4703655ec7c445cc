/** The page scheduler: base programme (rotation and time rules), presence and
    page inserts, and the state each carries from tick to tick. */
module Scheduler {
  import opened Text
  import opened Config
  import opened Clocks
  import opened Inserts
  import opened Programme

  datatype SchedulerStatus = SchedulerStatus(
    enabled: bool, mode: Mode, reason: Reason, activeRule: string, activeInsert: string,
    nextSwitch: Option<Time>, rotationIndex: nat, presence: Detected)

  datatype Reason =
    | Unknown | Disabled | ManualOverride | ByTime | NoActiveTimeRule
    | ByRotation | NoRotationItems | UnsupportedMode | ByInsert

  datatype Detected = NotUsed | Present | Absent

  datatype Override = Override(page: int, until: Option<Time>)

  // ------------------------------------------------------------ time rules

  /** The minutes from start up to end, across midnight if need be. */
  predicate InWindow(start: int, end: int, minute: int) {
    if start <= end then start <= minute < end else minute >= start || minute < end
  }

  predicate RuleActive(k: KioskConfig, rule: TimeRule, day: int, minute: int) {
    && !rule.disabled && WeekdayMatches(rule.days, Weekday(day))
    && RuleClock(k, rule.start, day).Some? && RuleClock(k, rule.end, day).Some?
    && InWindow(RuleClock(k, rule.start, day).value, RuleClock(k, rule.end, day).value, minute)
  }

  /** The first active rule, in configuration order. */
  function FirstActive(k: KioskConfig, rules: seq<TimeRule>, day: int, minute: int): (r: int)
    ensures -1 <= r < |rules|
    ensures r >= 0 ==> RuleActive(k, rules[r], day, minute) && forall i :: 0 <= i < r ==> !RuleActive(k, rules[i], day, minute)
    ensures r < 0 ==> forall rule <- rules :: !RuleActive(k, rule, day, minute)
  {
    if rules == [] then -1
    else if RuleActive(k, rules[0], day, minute) then 0
    else
      var r := FirstActive(k, rules[1..], day, minute);
      if r < 0 then -1 else r + 1
  }

  /** When the active window of the rule ends. */
  function RuleEnd(k: KioskConfig, rule: TimeRule, now: Time): Time
    requires RuleActive(k, rule, DayOf(now), MinuteOf(now))
  {
    var day := DayOf(now);
    var start, end := RuleClock(k, rule.start, day).value, RuleClock(k, rule.end, day).value;
    At(day, end) + (if start > end && MinuteOf(now) >= start then DAY else 0)
  }

  /** The window ends after now, and within a day. */
  lemma RuleEndsLater(k: KioskConfig, rule: TimeRule, now: Time)
    requires k.ClockBounded() && RuleActive(k, rule, DayOf(now), MinuteOf(now))
    ensures now < RuleEnd(k, rule, now) <= now + DAY
  {
    var day := DayOf(now);
    ClockInDay(k, rule.start, day);
    ClockInDay(k, rule.end, day);
    MinuteBounds(now);
    hide RuleClock, WeekdayMatches, DayOf, MinuteOf, KioskConfig.ClockBounded;
    EndsWithinADay(day, MinuteOf(now), RuleClock(k, rule.start, day).value, RuleClock(k, rule.end, day).value, now);
    hide At;
  }

  lemma EndsWithinADay(day: int, minute: int, start: int, end: int, now: Time)
    requires 0 <= start < 1440 && 0 <= end < 1440 && 0 <= minute < 1440
    requires At(day, minute) <= now < At(day, minute + 1)
    requires InWindow(start, end, minute)
    ensures now < At(day, end) + (if start > end && minute >= start then DAY else 0) <= now + DAY
  {
  }

  /** Both bounds are clock texts, which mean the same minute every day. */
  predicate FixedClocks(rule: TimeRule) {
    ParseClock(rule.start).Some? && ParseClock(rule.end).Some?
  }

  lemma MinutesGrow(now: Time, t: Time)
    requires now <= t
    ensures DayOf(now) <= DayOf(t)
    ensures DayOf(now) == DayOf(t) ==> MinuteOf(now) <= MinuteOf(t)
  {
    MinuteBounds(now);
    MinuteBounds(t);
  }

  /** Up to the reported end the rule stays active for the rest of the day, and
      with clock texts on every day it lists; at the end it is not active. */
  lemma ActiveUntilEnd(k: KioskConfig, rule: TimeRule, now: Time, t: Time)
    requires k.ClockBounded() && RuleActive(k, rule, DayOf(now), MinuteOf(now))
    requires now <= t <= RuleEnd(k, rule, now)
    ensures t < RuleEnd(k, rule, now) && DayOf(t) == DayOf(now) ==> RuleActive(k, rule, DayOf(t), MinuteOf(t))
    ensures t < RuleEnd(k, rule, now) && FixedClocks(rule) ==>
      (RuleActive(k, rule, DayOf(t), MinuteOf(t)) <==> WeekdayMatches(rule.days, Weekday(DayOf(t))))
    ensures t == RuleEnd(k, rule, now) && (DayOf(t) == DayOf(now) || FixedClocks(rule)) ==> !RuleActive(k, rule, DayOf(t), MinuteOf(t))
  {
    var day := DayOf(now);
    ClockInDay(k, rule.start, day);
    ClockInDay(k, rule.end, day);
    RuleEndsLater(k, rule, now);
    MinutesGrow(now, t);
    MinuteBounds(t);
    var start, end := RuleClock(k, rule.start, day).value, RuleClock(k, rule.end, day).value;
    if FixedClocks(rule) || DayOf(t) == day { SameClocks(k, rule, day, DayOf(t)); }
    hide ParseClock, RuleClock, FixedClocks, WeekdayMatches, DayOf, MinuteOf, KioskConfig.ClockBounded;
    WindowUntilEnd(start, end, day, MinuteOf(now), DayOf(t), MinuteOf(t), t);
    hide At;
  }

  lemma SameClocks(k: KioskConfig, rule: TimeRule, day: int, other: int)
    requires FixedClocks(rule) || other == day
    ensures RuleClock(k, rule.start, day) == RuleClock(k, rule.start, other)
    ensures RuleClock(k, rule.end, day) == RuleClock(k, rule.end, other)
  {
    hide ParseClock;
  }

  lemma WindowUntilEnd(start: int, end: int, day: int, minute: int, other: int, at: int, t: Time)
    requires 0 <= start < 1440 && 0 <= end < 1440 && 0 <= minute < 1440 && 0 <= at < 1440
    requires InWindow(start, end, minute) && day <= other && (day == other ==> minute <= at)
    requires At(other, at) <= t < At(other, at + 1)
    ensures var last := At(day, end) + (if start > end && minute >= start then DAY else 0);
      (t < last ==> InWindow(start, end, at)) && (t == last ==> !InWindow(start, end, at))
  {
    var last := if start > end && minute >= start then day + 1 else day;
    assert At(day, end) + (if start > end && minute >= start then DAY else 0) == At(last, end);
    Later(other, at, last, end);
    Later(last, end, other, at);
  }

  /** Minutes of days are ordered like pairs. */
  lemma Later(a: int, m: int, b: int, n: int)
    requires 0 <= m < 1440 && 0 <= n < 1440
    ensures a < b || (a == b && m < n) ==> At(a, m + 1) <= At(b, n)
  {
  }

  /** So a rule across midnight lasts until its reported end if and only if the
      day on which that end lies is listed, too. */
  lemma EndIsReachedExactly(k: KioskConfig, rule: TimeRule, now: Time)
    requires k.ClockBounded() && RuleActive(k, rule, DayOf(now), MinuteOf(now)) && FixedClocks(rule)
    ensures (forall t :: now <= t < RuleEnd(k, rule, now) ==> RuleActive(k, rule, DayOf(t), MinuteOf(t)))
      <==> WeekdayMatches(rule.days, Weekday(DayOf(RuleEnd(k, rule, now) - 1)))
  {
    var end := RuleEnd(k, rule, now);
    RuleEndsLater(k, rule, now);
    hide RuleActive, RuleEnd, WeekdayMatches, Weekday, FixedClocks, DayOf, MinuteOf, KioskConfig.ClockBounded;
    ActiveUntilEnd(k, rule, now, end - 1);
    forall t | now <= t < end && WeekdayMatches(rule.days, Weekday(DayOf(end - 1))) ensures RuleActive(k, rule, DayOf(t), MinuteOf(t)) {
      StillActive(k, rule, now, t);
    }
  }

  lemma StillActive(k: KioskConfig, rule: TimeRule, now: Time, t: Time)
    requires k.ClockBounded() && RuleActive(k, rule, DayOf(now), MinuteOf(now)) && FixedClocks(rule)
    requires now <= t < RuleEnd(k, rule, now) && WeekdayMatches(rule.days, Weekday(DayOf(RuleEnd(k, rule, now) - 1)))
    ensures RuleActive(k, rule, DayOf(t), MinuteOf(t))
  {
    RuleEndsLater(k, rule, now);
    ActiveUntilEnd(k, rule, now, t);
    DaysUpTo(now, t, RuleEnd(k, rule, now) - 1);
    hide RuleActive, RuleEnd, WeekdayMatches, FixedClocks, DayOf, MinuteOf, KioskConfig.ClockBounded;
  }

  /** A stretch of less than a day touches two days at most. */
  lemma DaysUpTo(now: Time, t: Time, last: Time)
    requires now <= t <= last < now + DAY
    ensures DayOf(t) == DayOf(now) || DayOf(t) == DayOf(last)
  {
    MinutesGrow(now, t);
    MinutesGrow(t, last);
  }

  lemma ClockInDay(k: KioskConfig, clock: string, day: int)
    requires k.ClockBounded() && RuleClock(k, clock, day).Some?
    ensures 0 <= RuleClock(k, clock, day).value < 1440
  {
    hide ParseClock;
  }

  // -------------------------------------------------------------- rotation

  datatype Rotation = Rotation(index: nat, until: Option<Time>, cycles: nat)

  function Dwell(item: RotationItem): Time {
    if item.durationSeconds <= 0 then HOUR else item.durationSeconds * SECOND
  }

  /** While an item is still due to stay, its index must exist. */
  ghost predicate RotationReady(k: KioskConfig, now: Time, r: Rotation) {
    k.rotation != [] ==> (r.until.Some? && now < r.until.value ==> r.index < |k.rotation|)
  }

  predicate Expired(r: Rotation, now: Time) {
    r.until.Some? && now >= r.until.value
  }

  ghost function Rotated(k: KioskConfig, now: Time, r: Rotation): Rotation
    requires k.rotation != [] && RotationReady(k, now, r)
  {
    if r.until.Some? && now < r.until.value then r
    else
      var index := if r.until.None? then 0 else (r.index + 1) % |k.rotation|;
      Rotation(index, Some(now + Dwell(k.rotation[index])), r.cycles + if r.until.Some? && index == 0 then 1 else 0)
  }

  /** The position a tick reads. */
  function TickIndex(k: KioskConfig, now: Time, r: Rotation): int
    requires k.rotation != []
  {
    if r.until.None? then 0 else if now >= r.until.value then (r.index + 1) % |k.rotation| else r.index
  }

  lemma ReadyExactly(k: KioskConfig, now: Time, r: Rotation)
    requires k.rotation != []
    ensures RotationReady(k, now, r) <==> 0 <= TickIndex(k, now, r) < |k.rotation|
    ensures RotationReady(k, now, r) ==> Rotated(k, now, r).index == TickIndex(k, now, r)
  {
  }

  /** A tick under one configuration, then one under its replacement before the
      change is signalled: the second reads a position out of range if and only if
      the item of the first is still due to stay and lies beyond the new rotation. */
  lemma ReplacedBeforeSignal(k: KioskConfig, replaced: KioskConfig, now: Time, later: Time, r: Rotation)
    requires k.rotation != [] && RotationReady(k, now, r) && replaced.rotation != []
    ensures var next := Rotated(k, now, r);
      TickIndex(replaced, later, next) >= |replaced.rotation| <==>
        later < next.until.value && next.index >= |replaced.rotation|
  {
    var next := Rotated(k, now, r);
    ReadyExactly(k, now, r);
    ReadyExactly(replaced, later, next);
  }

  /** It happens: a rotation of two, switched to its second item at `now`, is
      replaced by one of one item. */
  lemma ShorterRotationOverruns(k: KioskConfig, replaced: KioskConfig, now: Time, cycles: nat)
    requires |k.rotation| == 2 && |replaced.rotation| == 1
    ensures var r := Rotation(0, Some(now), cycles);
      RotationReady(k, now, r) && TickIndex(replaced, now, Rotated(k, now, r)) == 1
  {
  }

  ghost function RotationRun(k: KioskConfig, times: seq<Time>, r: Rotation): Rotation
    requires k.rotation != [] && r.index < |k.rotation|
  {
    if times == [] then r else RotationRun(k, times[1..], Rotated(k, times[0], r))
  }

  ghost function Switches(k: KioskConfig, times: seq<Time>, r: Rotation): nat
    requires k.rotation != [] && r.index < |k.rotation|
  {
    if times == [] then 0
    else (if Expired(r, times[0]) then 1 else 0) + Switches(k, times[1..], Rotated(k, times[0], r))
  }

  /** Over any run of ticks the position in the rotation and the number of full
      rounds together count every switch: nothing is skipped or shown twice. */
  lemma {:induction false} RotationCountsSwitches(k: KioskConfig, times: seq<Time>, r: Rotation)
    requires k.rotation != [] && r.index < |k.rotation| && r.until.Some?
    ensures var n := |k.rotation|;
      var last := RotationRun(k, times, r);
      last.until.Some? && last.index < n &&
      last.index + n * last.cycles == r.index + n * r.cycles + Switches(k, times, r)
  {
    if times != [] {
      var next := Rotated(k, times[0], r);
      SwitchCounts(k, times[0], r);
      RotationCountsSwitches(k, times[1..], next);
      hide Rotated, Expired;
    }
  }

  lemma SwitchCounts(k: KioskConfig, now: Time, r: Rotation)
    requires k.rotation != [] && r.index < |k.rotation| && r.until.Some?
    ensures var n, next := |k.rotation|, Rotated(k, now, r);
      && next.index < n && next.until.Some?
      && next.index + n * next.cycles == r.index + n * r.cycles + if Expired(r, now) then 1 else 0
  {
    var n := |k.rotation|;
    if Expired(r, now) {
      assert (r.index + 1) % n == if r.index + 1 < n then r.index + 1 else 0;
      assert n * (r.cycles + 1) == n * r.cycles + n;
    }
  }

  /** An item stays on screen for its whole effective duration. */
  lemma RotationDwells(k: KioskConfig, now: Time, later: Time, r: Rotation)
    requires k.rotation != [] && RotationReady(k, now, r) && (r.until.None? || Expired(r, now))
    requires now <= later
    ensures var next := Rotated(k, now, r);
      (Rotated(k, later, next) == next) <==> later < now + Dwell(k.rotation[next.index])
  {
    var next := Rotated(k, now, r);
    if later >= next.until.value {
      assert Rotated(k, later, next).until.value > later;
    }
  }

  // ------------------------------------------------------ presence, display

  function ApplyPresence(now: Time, k: KioskConfig, last: Option<Time>, status: SchedulerStatus): SchedulerStatus {
    if !k.presence.enabled then status
    else if last.None? || now >= last.value + k.presence.Timeout() then status.(presence := Absent)
    else
      var until := last.value + k.presence.Timeout();
      status.(presence := Present,
              nextSwitch := if status.nextSwitch.None? || until < status.nextSwitch.value then Some(until) else status.nextSwitch)
  }

  /** Somebody was detected less than the timeout ago: five minutes unless the
      configuration says otherwise. */
  ghost predicate SomebodyThere(k: KioskConfig, now: Time, last: Option<Time>) {
    last.Some? && now < last.value + if k.presence.timeoutMinutes > 0 then k.presence.timeoutMinutes * 60 * SECOND else 300 * SECOND
  }

  /** Presence changes the status only where it is enabled, says whether somebody
      is there, and wakes the scheduler at the latest when the detection runs out:
      up to then nothing changes without a new detection. */
  lemma PresenceExactly(now: Time, k: KioskConfig, last: Option<Time>, status: SchedulerStatus, later: Time)
    requires status.presence == NotUsed
    ensures var marked := ApplyPresence(now, k, last, status);
      && marked == status.(presence := marked.presence, nextSwitch := marked.nextSwitch)
      && (!k.presence.enabled ==> marked == status)
      && (k.presence.enabled ==> marked.presence == if SomebodyThere(k, now, last) then Present else Absent)
      && (marked.nextSwitch != status.nextSwitch ==>
            marked.nextSwitch.Some? && now < marked.nextSwitch.value && (status.nextSwitch.Some? ==> marked.nextSwitch.value < status.nextSwitch.value)
            && SomebodyThere(k, marked.nextSwitch.value - 1, last) && !SomebodyThere(k, marked.nextSwitch.value, last))
      && (now <= later && (marked.nextSwitch.Some? ==> later < marked.nextSwitch.value) ==>
            ApplyPresence(later, k, last, status).presence == marked.presence)
  {
  }

  predicate SchedulePageWantsPowerOff(k: KioskConfig) {
    exists page <- k.pages :: !page.disabled && page.url != "" && (page.displayMode == BySchedule || page.powerOffAfter)
  }

  function EffectiveMode(k: KioskConfig): Mode {
    if k.schedulerMode == Unset then RotationMode else k.schedulerMode
  }

  predicate ScheduleWantsDisplayOff(k: KioskConfig, target: int, status: SchedulerStatus) {
    if status.reason == ManualOverride || status.mode == OverrideMode then false
    else if status.presence == Present then false
    else if status.presence == Absent && k.presence.require then true
    else if !k.schedulerEnabled || k.timeRules == [] then false
    else if (status.reason == ByTime || status.reason == ByInsert) && target >= 0 then false
    else if EffectiveMode(k) == TimeMode then true
    else if EffectiveMode(k) == HybridMode then SchedulePageWantsPowerOff(k) || k.rotation == []
    else false
  }

  // ----------------------------------------------------------- base target

  /** The page the base programme wants (-1 for none), its status and the new
      rotation state. */
  ghost function BaseResult(k: KioskConfig, now: Time, r: Rotation): (int, SchedulerStatus, Rotation)
    requires RotationReady(k, now, r)
  {
    var status := SchedulerStatus(k.schedulerEnabled, k.schedulerMode, Unknown, "", "", None, 0, NotUsed);
    if !k.schedulerEnabled || k.PageCount() == 0 then (-1, status.(reason := Disabled), r)
    else
      var mode := EffectiveMode(k);
      var status := status.(mode := mode);
      var rule := if mode == TimeMode || mode == HybridMode
                  then FirstActive(k, k.timeRules, DayOf(now), MinuteOf(now)) else -1;
      if rule >= 0 then
        (ClampPage(k.timeRules[rule].page, k.PageCount()),
         status.(reason := ByTime, activeRule := RuleName(k.timeRules[rule]), nextSwitch := Some(RuleEnd(k, k.timeRules[rule], now))), r)
      else if mode == TimeMode || (mode == HybridMode && (SchedulePageWantsPowerOff(k) || k.rotation == [])) then
        (-1, status.(reason := NoActiveTimeRule), r)
      else if mode != RotationMode && mode != HybridMode then (-1, status.(reason := UnsupportedMode), r)
      else if k.rotation == [] then (-1, status.(reason := NoRotationItems), r)
      else
        var next := Rotated(k, now, r);
        (ClampPage(k.rotation[next.index].page, k.PageCount()),
         status.(reason := ByRotation, rotationIndex := next.index, nextSwitch := next.until), next)
  }

  function RuleName(rule: TimeRule): string {
    if rule.name == "" then rule.start + "-" + rule.end else rule.name
  }

  /** In the modes with time rules the display is wanted off exactly when the
      base programme names no page, although the two are decided separately. */
  lemma DisplayFollowsBase(k: KioskConfig, now: Time, r: Rotation)
    requires RotationReady(k, now, r) && k.schedulerEnabled && k.PageCount() > 0
    requires k.timeRules != [] && (EffectiveMode(k) == TimeMode || EffectiveMode(k) == HybridMode)
    ensures var (page, status, _) := BaseResult(k, now, r);
      ScheduleWantsDisplayOff(k, page, status) <==> page < 0
  {
  }

  /** The display is wanted off, in a mode other than override, when presence is
      required and nobody is there, or when nobody is known to be there and an
      enabled scheduler with time rules names no page in a mode that uses them. */
  lemma DisplayOffExactly(k: KioskConfig, now: Time, r: Rotation, last: Option<Time>)
    requires RotationReady(k, now, r) && k.PageCount() > 0
    ensures var (page, base, _) := BaseResult(k, now, r);
      ScheduleWantsDisplayOff(k, page, ApplyPresence(now, k, last, base)) <==>
        && !k.schedulerMode.OverrideMode?
        && (if k.presence.enabled then !SomebodyThere(k, now, last) else true)
        && ((k.presence.enabled && k.presence.require) ||
            (k.schedulerEnabled && k.timeRules != [] && (k.schedulerMode.TimeMode? || k.schedulerMode.HybridMode?) && page < 0))
  {
    PresenceExactly(now, k, last, BaseResult(k, now, r).1, now);
    hide ApplyPresence, SomebodyThere, FirstActive, RuleActive, RuleEnd, KioskConfig.PageCount, SchedulePageWantsPowerOff;
  }

  ghost predicate FirstAt(k: KioskConfig, now: Time, i: nat)
    requires i < |k.timeRules|
  {
    && RuleActive(k, k.timeRules[i], DayOf(now), MinuteOf(now))
    && forall j :: 0 <= j < i ==> !RuleActive(k, k.timeRules[j], DayOf(now), MinuteOf(now))
  }

  /** The base programme over all modes: the first active rule in configuration
      order in the modes with rules, else the rotation in the modes with one. */
  ghost predicate Programmed(k: KioskConfig, now: Time, r: Rotation, page: int, status: SchedulerStatus, next: Rotation) {
    Ruled(k, now, page, status) && Rotating(k, now, r, page, status, next)
  }

  ghost predicate Ruled(k: KioskConfig, now: Time, page: int, status: SchedulerStatus) {
    var mode := if k.schedulerMode == Unset then RotationMode else k.schedulerMode;
    var on, ruled := k.schedulerEnabled && k.PageCount() > 0, mode.TimeMode? || mode.HybridMode?;
    && status.enabled == k.schedulerEnabled && status.mode == (if on then mode else k.schedulerMode)
    && status.activeInsert == "" && status.presence == NotUsed && (page < 0 ==> status.nextSwitch.None?)
    && (!on ==> page == -1 && status.reason == Disabled)
    && (on && !ruled && !mode.RotationMode? ==> page == -1 && status.reason == UnsupportedMode)
    && (on && ruled ==> forall i :: 0 <= i < |k.timeRules| && FirstAt(k, now, i) ==>
            var rule := k.timeRules[i];
            page == ClampPage(rule.page, k.PageCount()) && status.reason == ByTime
            && status.activeRule == (if rule.name == "" then rule.start + "-" + rule.end else rule.name)
            && status.nextSwitch == Some(RuleEnd(k, rule, now)))
  }

  /** The rotation plays unless the programme is dark: in time mode, and in hybrid
      mode without a rotation or with an enabled page that wants power off outside
      its schedule. */
  ghost predicate Rotating(k: KioskConfig, now: Time, r: Rotation, page: int, status: SchedulerStatus, next: Rotation) {
    var rotates := k.schedulerMode.RotationMode? || k.schedulerMode.Unset?;
    var idle := forall rule <- k.timeRules :: !RuleActive(k, rule, DayOf(now), MinuteOf(now));
    var dark := k.schedulerMode.TimeMode? || (k.schedulerMode.HybridMode? && (k.rotation == [] ||
      exists p <- k.pages :: !p.disabled && p.url != "" && (p.displayMode.BySchedule? || p.powerOffAfter)));
    if !k.schedulerEnabled || k.PageCount() == 0 then next == r
    else
      && (idle && dark ==> page == -1 && status.reason == NoActiveTimeRule)
      && (rotates && k.rotation == [] ==> page == -1 && status.reason == NoRotationItems)
      && if k.rotation != [] && (rotates || (k.schedulerMode.HybridMode? && idle && !dark))
         then Turned(k, now, r, next) && status.reason == ByRotation && status.rotationIndex == next.index
              && status.nextSwitch == next.until && page == ClampPage(k.rotation[next.index].page, k.PageCount())
         else next == r
  }

  /** The rotation stays while its item is due to stay; else it begins with the
      first item or turns to the next one, for that item's duration from now on, an
      hour when it has none. Back at the first item a round is counted. */
  ghost predicate Turned(k: KioskConfig, now: Time, r: Rotation, next: Rotation)
    requires k.rotation != []
  {
    && next.index < |k.rotation|
    && (r.until.Some? && now < r.until.value ==> next == r)
    && (r.until.None? ==> next.index == 0 && next.cycles == r.cycles)
    && (r.until.Some? && now >= r.until.value ==>
          next.index == (r.index + 1) % |k.rotation| && next.cycles == r.cycles + if next.index == 0 then 1 else 0)
    && (r.until.None? || now >= r.until.value ==>
          var seconds := k.rotation[next.index].durationSeconds;
          next.until == Some(now + if seconds > 0 then seconds * SECOND else 3600 * SECOND))
  }

  lemma RotatedTurned(k: KioskConfig, now: Time, r: Rotation)
    requires k.rotation != [] && RotationReady(k, now, r)
    ensures Turned(k, now, r, Rotated(k, now, r))
  {
  }

  lemma PowerOffExactly(k: KioskConfig)
    ensures SchedulePageWantsPowerOff(k) <==>
      exists p <- k.pages :: !p.disabled && p.url != "" && (p.displayMode.BySchedule? || p.powerOffAfter)
  {
  }

  lemma FirstIsFirst(k: KioskConfig, now: Time)
    ensures var rule := FirstActive(k, k.timeRules, DayOf(now), MinuteOf(now));
      && -1 <= rule < |k.timeRules|
      && (rule < 0 <==> forall rule <- k.timeRules :: !RuleActive(k, rule, DayOf(now), MinuteOf(now)))
      && (rule >= 0 ==> RuleActive(k, k.timeRules[rule], DayOf(now), MinuteOf(now)))
      && forall i :: 0 <= i < |k.timeRules| && FirstAt(k, now, i) ==> i == rule
  {
    hide RuleActive, DayOf, MinuteOf;
    forall i | 0 <= i < |k.timeRules| && FirstAt(k, now, i)
      ensures i == FirstActive(k, k.timeRules, DayOf(now), MinuteOf(now))
    {
      assert k.timeRules[i] in k.timeRules;
    }
  }

  lemma BaseProgrammed(k: KioskConfig, now: Time, r: Rotation)
    requires RotationReady(k, now, r)
    ensures var (page, status, next) := BaseResult(k, now, r); Programmed(k, now, r, page, status, next)
  {
    BaseRuled(k, now, r);
    BaseRotating(k, now, r);
    hide Ruled, Rotating, BaseResult;
  }

  lemma BaseRuled(k: KioskConfig, now: Time, r: Rotation)
    requires RotationReady(k, now, r)
    ensures var (page, status, _) := BaseResult(k, now, r); Ruled(k, now, page, status)
  {
    FirstIsFirst(k, now);
    hide SchedulePageWantsPowerOff, FirstActive, FirstAt, RuleActive, RuleEnd, Rotated, KioskConfig.PageCount, RotationReady;
  }

  lemma BaseRotating(k: KioskConfig, now: Time, r: Rotation)
    requires RotationReady(k, now, r)
    ensures var (page, status, next) := BaseResult(k, now, r); Rotating(k, now, r, page, status, next)
  {
    if k.rotation != [] { RotatedTurned(k, now, r); }
    FirstIsFirst(k, now);
    PowerOffExactly(k);
    hide SchedulePageWantsPowerOff, FirstActive, FirstAt, RuleActive, RuleEnd, Turned, Rotated, KioskConfig.PageCount, RotationReady, ClampPage;
  }

  // ------------------------------------------------------- inserts on top

  /** What the insert overlay remembers between ticks. */
  datatype Overlay = Overlay(showing: bool, back: int)

  /** The insert that goes on top of the base result, if any. */
  ghost function InsertDue(k: KioskConfig, now: Time, target: int, status: SchedulerStatus): Option<InsertSlot> {
    if k.inserts == [] || ScheduleWantsDisplayOff(k, target, status) then None else ActiveAt(k, now)
  }

  ghost function OverlayPage(k: KioskConfig, now: Time, target: int, status: SchedulerStatus, o: Overlay): int {
    match InsertDue(k, now, target, status)
    case Some(slot) => k.EnabledPageIndex(slot.insert.pageID)
    case None =>
      if k.inserts != [] && o.showing && target < 0 && !ScheduleWantsDisplayOff(k, target, status)
      then ClampPage(o.back, k.PageCount()) else target
  }

  ghost function OverlayNext(k: KioskConfig, now: Time, target: int, status: SchedulerStatus, o: Overlay, active: int): Overlay {
    if InsertDue(k, now, target, status).Some? then Overlay(true, if o.showing then o.back else active)
    else o.(showing := false)
  }

  /** A run on screen, while the display is wanted on, puts its page on top: the
      first enabled page with its identifier. The page to return to is the one
      shown when the block began. With nothing on screen, or the display wanted
      off, the base page stands, or with none and the display on the page to
      return to. The scheduler wakes up for the base programme or for an insert
      that starts or ends, whichever is first. */
  ghost predicate OnTop(k: KioskConfig, now: Time, target: int, before: SchedulerStatus, o: Overlay, active: int,
                        page: int, status: SchedulerStatus, next: Overlay) {
    var off, pages := ScheduleWantsDisplayOff(k, target, before), Enabled(k.pages);
    && (forall s :: OnScreen(k, now, s) && !off ==>
          && status.reason == ByInsert && next == Overlay(true, if o.showing then o.back else active)
          && status.activeInsert == (if TrimSpace(s.insert.name) != "" then s.insert.name
                                     else if TrimSpace(s.insert.id) != "" then s.insert.id else "")
          && 0 <= page < |pages| && pages[page].pageID == TrimSpace(s.insert.pageID)
          && forall i :: 0 <= i < page ==> pages[i].pageID != TrimSpace(s.insert.pageID))
    && (off || Idle(k, now) ==>
          && status.reason == before.reason && status.activeInsert == before.activeInsert && !next.showing
          && page == if target < 0 && !off && o.showing && k.inserts != [] then ClampPage(o.back, k.PageCount()) else target)
    && (status.nextSwitch != before.nextSwitch ==>
          status.nextSwitch.Some? && status.nextSwitch.value > now && IsEdge(k, status.nextSwitch.value)
          && (before.nextSwitch.Some? ==> status.nextSwitch.value < before.nextSwitch.value))
  }

  lemma OverlayOnTop(k: KioskConfig, now: Time, target: int, before: SchedulerStatus, o: Overlay, active: int, status: SchedulerStatus)
    requires OverlayStatus(k, now, target, before, status)
    requires status.nextSwitch == before.nextSwitch || (status.nextSwitch.Some? && WokenBy(k, now, before, status.nextSwitch.value))
    ensures OnTop(k, now, target, before, o, active, OverlayPage(k, now, target, before, o), status, OverlayNext(k, now, target, before, o, active))
  {
    hide AwakeInTime, ScheduleWantsDisplayOff, KioskConfig.PageCount, IsEdge;
    forall s | OnScreen(k, now, s) ensures k.inserts != [] && ActiveAt(k, now) == Some(s) && k.EnabledPageIndex(s.insert.pageID) >= 0 {
      OnScreenIsEnabled(k, now, s);
      OnScreenUnique(k, now, s, ActiveAt(k, now).value);
    }
    hide IsRun;
  }

  ghost predicate WokenBy(k: KioskConfig, now: Time, before: SchedulerStatus, at: Time) {
    at > now && IsEdge(k, at) && (before.nextSwitch.Some? ==> at < before.nextSwitch.value)
  }

  function WakeBy(status: SchedulerStatus, next: Option<Time>): (r: SchedulerStatus) {
    if next.Some? && (status.nextSwitch.None? || next.value < status.nextSwitch.value)
    then status.(nextSwitch := next) else status
  }

  lemma WokenUp(k: KioskConfig, now: Time, target: int, before: SchedulerStatus, next: Option<Time>)
    requires AwakeInTime(k, now, next) && (next.Some? ==> next.value > now && IsEdge(k, next.value))
    ensures var status := WakeBy(before, next);
      && status == before.(nextSwitch := status.nextSwitch) && AwakeInTime(k, now, status.nextSwitch)
      && (before.nextSwitch.Some? ==> status.nextSwitch.Some? && status.nextSwitch.value <= before.nextSwitch.value)
      && (status.nextSwitch == before.nextSwitch || (status.nextSwitch.Some? && WokenBy(k, now, before, status.nextSwitch.value)))
      && ScheduleWantsDisplayOff(k, target, status) == ScheduleWantsDisplayOff(k, target, before)
  {
    hide SameScreen, IsEdge;
  }

  function InsertLabel(insert: PageInsert): string {
    if !Blank(insert.name) then insert.name else if !Blank(insert.id) then insert.id else ""
  }

  /** Apart from reason and label, only the wake-up time changes, and it is soon
      enough both for the base programme and for the inserts. */
  ghost predicate OverlayStatus(k: KioskConfig, now: Time, target: int, before: SchedulerStatus, status: SchedulerStatus) {
    && status == before.(reason := status.reason, activeInsert := status.activeInsert, nextSwitch := status.nextSwitch)
    && status.reason == (if InsertDue(k, now, target, before).Some? then ByInsert else before.reason)
    && status.activeInsert == (match InsertDue(k, now, target, before)
                               case Some(slot) => InsertLabel(slot.insert)
                               case None => before.activeInsert)
    && (before.nextSwitch.Some? ==> status.nextSwitch.Some? && status.nextSwitch.value <= before.nextSwitch.value)
    && (k.inserts != [] ==> AwakeInTime(k, now, status.nextSwitch))
  }

  /** An insert neither wakes a display that is off nor blanks one that is on. */
  lemma InsertsNeverTouchTheDisplay(k: KioskConfig, now: Time, target: int, before: SchedulerStatus, o: Overlay, status: SchedulerStatus)
    requires before.reason != ManualOverride && OverlayStatus(k, now, target, before, status)
    ensures ScheduleWantsDisplayOff(k, OverlayPage(k, now, target, before, o), status)
      == ScheduleWantsDisplayOff(k, target, before)
  {
    hide AwakeInTime, OnScreen, KioskConfig.PageCount;
    var due := InsertDue(k, now, target, before);
    if due.Some? {
      assert k.EnabledPageIndex(due.value.insert.pageID) >= 0 by { OnScreenIsEnabled(k, now, due.value); }
    }
  }

  lemma OnScreenIsEnabled(k: KioskConfig, now: Time, s: InsertSlot)
    requires OnScreen(k, now, s)
    ensures k.EnabledPageIndex(s.insert.pageID) >= 0
  {
  }

  // --------------------------------------------------------------- waking up

  const GRACE: Time := 50 * (SECOND / 1000)

  /** How long the scheduler sleeps after a decision. */
  function NextSchedulerWake(now: Time, tick: Time, next: Option<Time>): (sleep: Time)
    ensures next.None? || next.value >= now + tick > now ==> sleep == tick
    ensures next.Some? && next.value < now ==> sleep == 0
    ensures next.Some? && now <= next.value < now + tick ==> now + sleep == next.value + 50_000_000
  {
    if next.None? then tick
    else
      var until := next.value - now;
      if until < 0 then 0 else if until < tick then until + GRACE else tick
  }

  /** The scheduler decides at `now`, switches the page, and from `later` on
      sleeps. Whatever the tick, what was decided is out of date for at most the
      last 50 milliseconds of the sleep, apart from changes that fall into the
      page switch itself. */
  lemma ChangesAreShownInTime(k: KioskConfig, now: Time, later: Time, tick: Time, target: int, before: SchedulerStatus, status: SchedulerStatus)
    requires k.inserts != [] && OverlayStatus(k, now, target, before, status)
    requires now <= later <= now + 24 * HOUR && 0 < tick <= 24 * HOUR
    ensures var wake := later + NextSchedulerWake(later, tick, status.nextSwitch);
      forall t :: now <= t < wake && !SameScreen(k, now, t) ==> wake - t <= 50_000_000 || t < later
    ensures status.nextSwitch.Some? && later > status.nextSwitch.value ==> NextSchedulerWake(later, tick, status.nextSwitch) == 0
  {
    var wake := later + NextSchedulerWake(later, tick, status.nextSwitch);
    hide SameScreen;
    forall t | now <= t < wake && wake - t > GRACE && t >= later ensures SameScreen(k, now, t) {
      assert status.nextSwitch.Some? ==> t < status.nextSwitch.value;
    }
  }

  // -------------------------------------------------------- runs of ticks

  /** One scheduler tick: the configuration and base result it saw and the page
      shown at that moment, or a tick spent under a manual override. */
  datatype Tick =
    | Plain(k: KioskConfig, now: Time, target: int, status: SchedulerStatus, active: int)
    | Overridden
  {
    ghost predicate ShowsInsert() {
      Plain? && InsertDue(k, now, target, status).Some?
    }

    ghost predicate EndsBlock() {
      Plain? && InsertDue(k, now, target, status).None?
    }

    ghost function Page(o: Overlay): int
      requires Plain?
    {
      OverlayPage(k, now, target, status, o)
    }

    ghost function Next(o: Overlay): Overlay {
      if Plain? then OverlayNext(k, now, target, status, o, active) else o
    }
  }

  ghost function After(ticks: seq<Tick>, o: Overlay): Overlay {
    if ticks == [] then o else After(ticks[1..], ticks[0].Next(o))
  }

  lemma {:induction false} AfterConcat(a: seq<Tick>, b: seq<Tick>, o: Overlay)
    ensures After(a + b, o) == After(b, After(a, o))
  {
    if a == [] {
      assert a + b == b;
    } else {
      assert (a + b)[1..] == a[1..] + b;
      AfterConcat(a[1..], b, a[0].Next(o));
    }
  }

  /** Inside a block the return page is the one shown when the block began. */
  lemma {:induction false} BlockKeepsReturn(block: seq<Tick>, o: Overlay)
    requires forall tick <- block :: tick.ShowsInsert() || tick.Overridden?
    requires o.showing
    ensures After(block, o) == o
  {
    if block != [] {
      assert block[0] in block;
      BlockKeepsReturn(block[1..], o);
    }
  }

  /** Over any run of ticks, `before` then a block of inserts then `end`: the
      block ends on the base page, or when the base names none and the display is
      on, on the page shown before the block, even if `before` left a block open
      across a manual override. */
  lemma BlockEndsWhereItBegan(before: seq<Tick>, first: Tick, block: seq<Tick>, end: Tick, start: Overlay)
    requires first.ShowsInsert() && (forall tick <- block :: tick.ShowsInsert() || tick.Overridden?)
    requires end.EndsBlock() && end.k.inserts != []
    ensures var began, o := After(before, start), After(before + [first] + block, start);
      end.Page(o) == if end.target >= 0 || ScheduleWantsDisplayOff(end.k, end.target, end.status) then end.target
                     else ClampPage(if began.showing then began.back else first.active, end.k.PageCount())
  {
    AfterConcat(before + [first], block, start);
    AfterConcat(before, [first], start);
    var began := After(before, start);
    assert [first][1..] == [];
    assert After([first], began) == first.Next(began);
    BlockKeepsReturn(block, first.Next(began));
  }

  /** No block is open at the start of a run, nor after a tick that ended one. */
  lemma NotShowingAfter(before: seq<Tick>, start: Overlay)
    requires if before == [] then !start.showing else before[|before| - 1].EndsBlock()
    ensures !After(before, start).showing
  {
    if before != [] {
      var n := |before| - 1;
      assert before == before[..n] + [before[n]];
      AfterConcat(before[..n], [before[n]], start);
      assert [before[n]][1..] == [];
      assert After([before[n]], After(before[..n], start)) == before[n].Next(After(before[..n], start));
    }
  }

  /** With no base page, the page before the block returns if and only if the tick
      that ends it has inserts and wants the display on. Either way the return
      page is forgotten. */
  lemma ReturnsExactlyWhen(end: Tick, o: Overlay)
    requires end.EndsBlock() && o.showing && end.target == -1 && end.k.PageCount() > 0
    ensures var comesBack := end.k.inserts != [] && !ScheduleWantsDisplayOff(end.k, end.target, end.status);
      && (end.Page(o) == ClampPage(o.back, end.k.PageCount()) <==> comesBack)
      && (!comesBack ==> end.Page(o) == -1)
    ensures !end.Next(o).showing
  {
  }

  /** A return page that was forgotten stays so: until the next block no tick of
      any run names a page where the base programme names none. */
  lemma {:induction false} ForgottenForGood(rest: seq<Tick>, later: Tick, o: Overlay)
    requires !o.showing && forall tick <- rest :: tick.EndsBlock() || tick.Overridden?
    requires later.EndsBlock() && later.target == -1
    ensures later.Page(After(rest, o)) == -1
  {
    if rest != [] {
      assert rest[0] in rest;
      ForgottenForGood(rest[1..], later, rest[0].Next(o));
    }
  }

  /** The page shown when the display comes back on. */
  function RestoreTarget(target: int, active: int): (page: int)
    ensures page == active || page == target >= 0
    ensures target >= 0 ==> page == target
  {
    if target < 0 then active else target
  }

  /** So an insert's page can outlast it: presence is required, nobody is detected
      when the insert ends, and the display comes back on to the insert's page. */
  lemma ReturnLostWhileOff(k: KioskConfig, now: Time, later: Time, r: Rotation, insertPage: int, o: Overlay)
    requires k.inserts != [] && !k.schedulerEnabled && k.schedulerMode != OverrideMode
    requires k.presence.enabled && k.presence.require
    requires o.showing && ActiveAt(k, later).None? && RotationReady(k, now, r)
    ensures var (target, base, _) := BaseResult(k, now, r);
      var off := Plain(k, now, target, ApplyPresence(now, k, None, base), insertPage);
      var on := Plain(k, later, target, ApplyPresence(later, k, Some(later), base), insertPage);
      && off.EndsBlock() && ScheduleWantsDisplayOff(k, off.target, off.status) && off.Page(o) == -1
      && on.EndsBlock() && !ScheduleWantsDisplayOff(k, on.target, on.status)
      && on.Page(off.Next(o)) == -1 && RestoreTarget(on.Page(off.Next(o)), insertPage) == insertPage
  {
    hide ActiveAt, KioskConfig.PageCount;
  }

  function OverrideStatus(until: Option<Time>): SchedulerStatus {
    SchedulerStatus(true, OverrideMode, ManualOverride, "", "", until, 0, NotUsed)
  }

  lemma SameClock(k: KioskConfig, other: KioskConfig, now: Time, r: Rotation)
    requires k.ClockBounded() && RotationReady(k, now, r) && other == k.(inserts := other.inserts)
    ensures other.ClockBounded() && RotationReady(other, now, r)
  {
  }

  class PageScheduler {
    var active: int
    var rotationIndex: nat
    var rotationUntil: Option<Time>
    var rotationCycles: nat
    var insertShowing: bool
    var insertReturn: int
    var manual: Option<Override>

    constructor ()
      ensures active == 0 && rotationUntil.None? && !insertShowing && manual.None?
    {
      active, rotationIndex, rotationUntil, rotationCycles := 0, 0, None, 0;
      insertShowing, insertReturn, manual := false, 0, None;
    }

    ghost function RotationState(): Rotation
      reads this
    {
      Rotation(rotationIndex, rotationUntil, rotationCycles)
    }

    ghost function OverlayState(): Overlay
      reads this
    {
      Overlay(insertShowing, insertReturn)
    }

    /** A configuration change drops the rotation position. */
    method ConfigChanged()
      modifies this`rotationIndex, this`rotationUntil
      ensures forall k: KioskConfig, now: Time :: RotationReady(k, now, RotationState())
      ensures rotationIndex == 0 && rotationUntil.None?
    {
      rotationIndex, rotationUntil := 0, None;
    }

    method RotationTarget(now: Time, k: KioskConfig, before: SchedulerStatus) returns (page: int, status: SchedulerStatus)
      requires RotationReady(k, now, RotationState())
      modifies this`rotationIndex, this`rotationUntil, this`rotationCycles
      ensures k.rotation == [] ==> page == -1 && status == before.(reason := NoRotationItems) && RotationState() == old(RotationState())
      ensures k.rotation != [] ==>
        && RotationState() == Rotated(k, now, old(RotationState()))
        && page == ClampPage(k.rotation[rotationIndex].page, k.PageCount())
        && status == before.(reason := ByRotation, rotationIndex := rotationIndex, nextSwitch := rotationUntil)
    {
      hide KioskConfig.PageCount;
      if k.rotation == [] { return -1, before.(reason := NoRotationItems); }
      if rotationUntil.None? {
        rotationIndex := 0;
      } else if now >= rotationUntil.value {
        rotationIndex := (rotationIndex + 1) % |k.rotation|;
        if rotationIndex == 0 { rotationCycles := rotationCycles + 1; }
      }
      if rotationUntil.None? || now >= rotationUntil.value {
        var item := k.rotation[rotationIndex];
        var duration := item.durationSeconds * SECOND;
        if duration <= 0 { duration := HOUR; }
        rotationUntil := Some(now + duration);
      }
      page := ClampPage(k.rotation[rotationIndex].page, k.PageCount());
      status := before.(reason := ByRotation, rotationIndex := rotationIndex, nextSwitch := rotationUntil);
    }

    method BaseTarget(now: Time, k: KioskConfig) returns (page: int, status: SchedulerStatus)
      requires RotationReady(k, now, RotationState())
      modifies this`rotationIndex, this`rotationUntil, this`rotationCycles
      ensures (page, status, RotationState()) == BaseResult(k, now, old(RotationState()))
      ensures Programmed(k, now, old(RotationState()), page, status, RotationState())
    {
      BaseProgrammed(k, now, RotationState());
      hide Programmed;
      status := SchedulerStatus(k.schedulerEnabled, k.schedulerMode, Unknown, "", "", None, 0, NotUsed);
      if !k.schedulerEnabled || k.PageCount() == 0 { return -1, status.(reason := Disabled); }
      var mode := k.schedulerMode;
      if mode == Unset {
        mode := RotationMode;
        status := status.(mode := mode);
      }
      if mode == TimeMode || mode == HybridMode {
        var rule := FirstActive(k, k.timeRules, DayOf(now), MinuteOf(now));
        if rule >= 0 {
          status := status.(reason := ByTime, activeRule := RuleName(k.timeRules[rule]), nextSwitch := Some(RuleEnd(k, k.timeRules[rule], now)));
          return ClampPage(k.timeRules[rule].page, k.PageCount()), status;
        }
        if mode == TimeMode || SchedulePageWantsPowerOff(k) || k.rotation == [] {
          return -1, status.(reason := NoActiveTimeRule);
        }
      }
      if mode == RotationMode || mode == HybridMode {
        page, status := RotationTarget(now, k, status);
        return;
      }
      return -1, status.(reason := UnsupportedMode);
    }

    /** Puts an insert that is due on top of the base result. The new wake-up
        time never sleeps through an insert change. */
    method ApplyInserts(now: Time, k: KioskConfig, target: int, before: SchedulerStatus) returns (page: int, status: SchedulerStatus)
      requires k.ClockBounded()
      modifies this`insertShowing, this`insertReturn
      ensures page == OverlayPage(k, now, target, before, old(OverlayState()))
      ensures OverlayState() == OverlayNext(k, now, target, before, old(OverlayState()), active)
      ensures OverlayStatus(k, now, target, before, status)
      ensures OnTop(k, now, target, before, old(OverlayState()), active, page, status, OverlayState())
    {
      ghost var was := OverlayState();
      page, status := Overlaid(now, k, target, before);
      OverlayOnTop(k, now, target, before, was, active, status);
      hide *;
    }

    /** The steps of putting an insert on top. */
    method Overlaid(now: Time, k: KioskConfig, target: int, before: SchedulerStatus) returns (page: int, status: SchedulerStatus)
      requires k.ClockBounded()
      modifies this`insertShowing, this`insertReturn
      ensures page == OverlayPage(k, now, target, before, old(OverlayState()))
      ensures OverlayState() == OverlayNext(k, now, target, before, old(OverlayState()), active)
      ensures OverlayStatus(k, now, target, before, status)
      ensures status.nextSwitch == before.nextSwitch || (status.nextSwitch.Some? && WokenBy(k, now, before, status.nextSwitch.value))
    {
      hide IsRun, Running, SameScreen, IsEdge, Idle, OnScreen, ActiveAt, Blank, KioskConfig.EnabledPageIndex, KioskConfig.PageCount, KioskConfig.ClockBounded;
      status, page := before, target;
      if k.inserts == [] {
        insertShowing := false;
        return;
      }
      var next := NextInsertChange(k, now);
      WokenUp(k, now, target, before, next);
      hide AwakeInTime, WakeBy, InsertLabel, WokenBy;
      status := WakeBy(status, next);
      var off := ScheduleWantsDisplayOff(k, target, status);
      hide ScheduleWantsDisplayOff;
      if !off {
        var slot := ActiveInsert(k, now);
        if slot.Some? {
          var index := k.EnabledPageIndex(slot.value.insert.pageID);
          if index >= 0 {
            if !insertShowing { insertShowing, insertReturn := true, active; }
            return index, status.(reason := ByInsert, activeInsert := InsertLabel(slot.value.insert));
          }
        }
      }
      if insertShowing {
        insertShowing := false;
        if target < 0 && !off { page := ClampPage(insertReturn, k.PageCount()); }
      }
    }

    /** One decision: a manual override first, then base, presence and inserts. */
    method SchedulerTarget(now: Time, cfg: KioskConfig, lookup: string -> Option<string>, same: (string, string) -> bool, lastPresence: Option<Time>)
      returns (page: int, status: SchedulerStatus)
      requires cfg.ClockBounded() && RotationReady(cfg, now, RotationState())
      modifies this
      ensures active == old(active)
      ensures old(OverrideHolds(now)) ==>
        page == old(manual).value.page && manual == old(manual) &&
        status == ApplyPresence(now, cfg, lastPresence, OverrideStatus(old(manual).value.until)) &&
        RotationState() == old(RotationState()) && OverlayState() == old(OverlayState())
      ensures old(OverrideHolds(now)) ==>
        && status.enabled && status.mode == OverrideMode && status.reason == ManualOverride
        && status.activeRule == "" && status.activeInsert == "" && status.rotationIndex == 0
        && (old(manual).value.until.Some? ==> status.nextSwitch.Some? && status.nextSwitch.value <= old(manual).value.until.value)
        && !ScheduleWantsDisplayOff(cfg, page, status)
      ensures !old(OverrideHolds(now)) ==>
        var k := Where(cfg, lookup, same);
        var (target, base, rotation) := old(BaseResult(k, now, RotationState()));
        var before := ApplyPresence(now, k, lastPresence, base);
        && manual == None && RotationState() == rotation
        && page == OverlayPage(k, now, target, before, old(OverlayState()))
        && OverlayState() == OverlayNext(k, now, target, before, old(OverlayState()), active)
        && OverlayStatus(k, now, target, before, status)
        && Programmed(k, now, old(RotationState()), target, base, rotation)
        && OnTop(k, now, target, before, old(OverlayState()), active, page, status, OverlayState())
    {
      if manual.Some? && manual.value.until.Some? && now >= manual.value.until.value { manual := None; }
      if manual.Some? {
        status := OverrideStatus(manual.value.until);
        return manual.value.page, ApplyPresence(now, cfg, lastPresence, status);
      }
      hide Programmed, OnTop, OverlayPage, OverlayNext, OverlayStatus, BaseResult, ApplyPresence, Where, RotationReady, KioskConfig.ClockBounded;
      var k := InsertsWhere(cfg, Some(lookup), same);
      assert k.ClockBounded() && RotationReady(k, now, RotationState()) by { SameClock(cfg, k, now, RotationState()); }
      var target, base := BaseTarget(now, k);
      var before := ApplyPresence(now, k, lastPresence, base);
      page, status := ApplyInserts(now, k, target, before);
    }

    /** Shows a page for a while, an hour unless asked otherwise and a day at
        most; `shown` is whether the page switch succeeded. */
    method SetOverride(now: Time, page: int, duration: Time, shown: bool)
      modifies this`manual
      ensures !shown ==> manual == old(manual)
      ensures shown ==> manual.Some? && manual.value.page == page && manual.value.until.Some?
      ensures shown && duration <= 0 ==> manual.value.until.value == now + HOUR
      ensures shown && 0 < duration <= DAY ==> manual.value.until.value == now + duration
      ensures shown && duration > DAY ==> manual.value.until.value == now + DAY
      ensures shown ==> forall t :: OverrideHolds(t) <==> t < manual.value.until.value
    {
      var limited := duration;
      if limited <= 0 { limited := HOUR; }
      if limited > 24 * HOUR { limited := 24 * HOUR; }
      if !shown { return; }
      manual := Some(Override(page, Some(now + limited)));
    }

    /** First section of ending an override: none holds any more, and the rotation
        starts over, in whatever configuration. */
    method DropOverride()
      modifies this`manual, this`rotationUntil
      ensures forall t :: !OverrideHolds(t)
      ensures rotationUntil.None? && rotationIndex == old(rotationIndex) && rotationCycles == old(rotationCycles)
      ensures forall k: KioskConfig, now: Time :: RotationReady(k, now, RotationState())
    {
      manual := None;
      rotationUntil := None;
    }

    /** Ends an override and decides at once: the page returned, if not negative,
        is the one to show. */
    method ClearOverride(now: Time, cfg: KioskConfig, lookup: string -> Option<string>, same: (string, string) -> bool, lastPresence: Option<Time>)
      returns (page: int, status: SchedulerStatus)
      requires cfg.ClockBounded()
      modifies this
      ensures manual == None && active == old(active)
      ensures var k := Where(cfg, lookup, same);
        var (target, base, rotation) := old(BaseResult(k, now, Rotation(rotationIndex, None, rotationCycles)));
        var before := ApplyPresence(now, k, lastPresence, base);
        && RotationState() == rotation
        && page == OverlayPage(k, now, target, before, old(OverlayState()))
        && OverlayStatus(k, now, target, before, status)
        && Programmed(k, now, Rotation(old(rotationIndex), None, old(rotationCycles)), target, base, rotation)
        && OnTop(k, now, target, before, old(OverlayState()), active, page, status, OverlayState())
    {
      DropOverride();
      hide BaseResult, ApplyPresence, OverlayPage, OverlayNext, OverlayStatus, Programmed, OnTop, KioskConfig.ClockBounded;
      page, status := SchedulerTarget(now, cfg, lookup, same, lastPresence);
    }

    predicate OverrideHolds(now: Time)
      reads this
    {
      manual.Some? && (manual.value.until.Some? ==> now < manual.value.until.value)
    }
  }
}
