/** Page inserts: short runs of a page on a fixed rhythm, on top of the base
    programme. A run is described once, by `IsRun`; the loops below enumerate
    runs, pick the one on screen, find the next change and cut a stretch of
    time into segments, and each is tied back to that one description. */
module Inserts {
  import opened Text
  import opened Config

  /** One run of an insert. */
  datatype InsertSlot = InsertSlot(insert: PageInsert, index: nat, start: Time, end: Time)

  /** A stretch of time with one insert, or the base programme (id ""), on screen. */
  datatype ProgramSegment = ProgramSegment(
    start: Time, end: Time, insertID: string, name: string, pageID: string, priority: int)

  const MAX_INSERT_DURATION: Time := HOUR

  function Duration(p: PageInsert): (d: Time)
    ensures 0 <= d <= MAX_INSERT_DURATION
  {
    var d := p.durationSeconds * SECOND;
    if d <= 0 then 0 else if d < MAX_INSERT_DURATION then d else MAX_INSERT_DURATION
  }

  /** Whether the rhythm of p starts a run at this minute of this day, before
      days and window are looked at. */
  ghost predicate StartsAt(k: KioskConfig, p: PageInsert, day: int, minute: int) {
    && 0 <= minute < 1440
    && match p.repeat
       case Interval => p.everyMinutes > 0 && minute % p.everyMinutes == 0
       case Hourly => 0 <= p.minute <= 59 && minute % 60 == p.minute
       case Times => exists at <- p.times :: k.resolve(at, day) == Some(minute)
       case OtherRepeat(_) => false
  }

  /** Whether a run starting at minute on day is inside the days and window. */
  predicate Allows(k: KioskConfig, p: PageInsert, day: int, minute: int) {
    WeekdayMatches(p.days, Weekday(day)) &&
    (p.start == "" ||
     var start := k.resolve(p.start, day);
     var end := k.resolve(p.end, day);
     if start.None? || end.None? || start == end then start.Some? && end.Some?
     else if start.value < end.value then start.value <= minute < end.value
     else minute >= start.value || minute < end.value)
  }

  /** A run may start on a day of an empty list or one that some name denotes,
      and in a window whose bounds can both be resolved: the stretch from its
      start up to its end, whether or not midnight lies in between, or the whole
      day when they are equal. */
  lemma AllowsIsCyclicWindow(k: KioskConfig, p: PageInsert, day: int, minute: int)
    requires k.ClockBounded() && 0 <= minute < 1440
    ensures Allows(k, p, day, minute) <==>
      && (p.days == [] || exists name <- p.days :: NamesDay(name, Weekday(day)))
      && (p.start == "" ||
          (k.resolve(p.start, day).Some? && k.resolve(p.end, day).Some? &&
           var s, e := k.resolve(p.start, day).value, k.resolve(p.end, day).value;
           s == e || (minute - s) % 1440 < (e - s) % 1440))
  {
    hide NamesDay, Weekday;
    if k.resolve(p.start, day).Some? && k.resolve(p.end, day).Some? {
      var s, e := k.resolve(p.start, day).value, k.resolve(p.end, day).value;
      assert 0 <= s < 1440 && 0 <= e < 1440;
    }
  }

  predicate Eligible(k: KioskConfig, p: PageInsert) {
    !p.disabled && k.EnabledPageIndex(p.pageID) >= 0 && Duration(p) > 0
  }

  /** Everything p asks of the start of a run: its rhythm, an enabled page, a day
      that its list names, and a minute inside its window, read around the clock;
      equal bounds mean the whole day. */
  ghost predicate MayStart(k: KioskConfig, p: PageInsert, day: int, minute: int) {
    && StartsAt(k, p, day, minute)
    && !p.disabled && p.durationSeconds > 0 && HasPage(k, p)
    && (p.days == [] || exists name <- p.days :: NamesDay(name, Weekday(day)))
    && (p.start == "" ||
        (k.resolve(p.start, day).Some? && k.resolve(p.end, day).Some? &&
         var s, e := k.resolve(p.start, day).value, k.resolve(p.end, day).value;
         s == e || (minute - s) % 1440 < (e - s) % 1440))
  }

  ghost predicate HasPage(k: KioskConfig, p: PageInsert) {
    TrimSpace(p.pageID) != "" &&
    exists page <- k.pages :: !page.disabled && TrimSpace(page.url) != "" && page.pageID == TrimSpace(p.pageID)
  }

  /** The meaning of the insert configuration: every run of every day, an hour
      long at most. */
  ghost predicate IsRun(k: KioskConfig, s: InsertSlot) {
    && s.index < |k.inserts| && s.insert == k.inserts[s.index]
    && s.start == At(DayOf(s.start), MinuteOf(s.start))
    && s.end == s.start + (if s.insert.durationSeconds < 3600 then s.insert.durationSeconds * SECOND else HOUR)
    && MayStart(k, s.insert, DayOf(s.start), MinuteOf(s.start))
  }

  /** The checks of the loops are those conditions. */
  lemma ChecksExactly(k: KioskConfig, p: PageInsert, day: int, minute: int)
    requires k.ClockBounded() && StartsAt(k, p, day, minute)
    ensures MayStart(k, p, day, minute) <==> Eligible(k, p) && Allows(k, p, day, minute)
  {
    AllowsIsCyclicWindow(k, p, day, minute);
    PageExactly(k, p);
    hide Allows, HasPage, NamesDay, Weekday, KioskConfig.EnabledPageIndex, StartsAt;
  }

  lemma PageExactly(k: KioskConfig, p: PageInsert)
    ensures k.EnabledPageIndex(p.pageID) >= 0 <==> HasPage(k, p)
  {
    hide TrimSpace;
    var pages, r := Enabled(k.pages), k.EnabledPageIndex(p.pageID);
    if r >= 0 { assert pages[r] in pages && IsEnabled(pages[r]); }
    forall page <- k.pages | !page.disabled && TrimSpace(page.url) != "" ensures page in pages {
      assert IsEnabled(page);
    }
    hide Enabled;
  }

  // -------------------------------------------------- conditions on messages

  /** A topic that has not sent anything yet never holds; `same` compares two
      texts without regard to case. */
  predicate Holds(c: InsertCondition, seen: Option<string>, same: (string, string) -> bool) {
    seen.Some? && same(TrimSpace(seen.value), TrimSpace(c.value)) != c.negate
  }

  predicate Admitted(p: PageInsert, lookup: string -> Option<string>, same: (string, string) -> bool) {
    p.condition.None? || Holds(p.condition.value, lookup(p.condition.value.topic), same)
  }

  function Where(k: KioskConfig, lookup: string -> Option<string>, same: (string, string) -> bool): KioskConfig {
    k.(inserts := seq(|k.inserts|, i requires 0 <= i < |k.inserts| => Filtered(k.inserts[i], lookup, same)))
  }

  function Filtered(p: PageInsert, lookup: string -> Option<string>, same: (string, string) -> bool): PageInsert {
    if Admitted(p, lookup, same) then p else p.(disabled := true)
  }

  /** Without a lookup nothing is filtered. */
  method InsertsWhere(k: KioskConfig, lookup: Option<string -> Option<string>>, same: (string, string) -> bool)
    returns (r: KioskConfig)
    ensures r == if lookup.None? then k else Where(k, lookup.value, same)
    ensures r == k.(inserts := r.inserts) && |r.inserts| == |k.inserts|
    ensures lookup.Some? ==> forall i :: 0 <= i < |k.inserts| ==>
      var p, was := r.inserts[i], k.inserts[i];
      && p == was.(disabled := p.disabled)
      && (was.condition.None? ==> p == was)
      && (was.condition.Some? ==>
            var seen, asked := lookup.value(was.condition.value.topic), TrimSpace(was.condition.value.value);
            && (seen.None? ==> p.disabled)
            && (seen.Some? && same(TrimSpace(seen.value), asked) ==> p.disabled == (was.disabled || was.condition.value.negate))
            && (seen.Some? && !same(TrimSpace(seen.value), asked) ==> p.disabled == (was.disabled || !was.condition.value.negate)))
  {
    if lookup.None? { return k; }
    hide TrimSpace;
    var inserts, changed := k.inserts, false;
    for i := 0 to |k.inserts|
      invariant |inserts| == |k.inserts|
      invariant forall j :: i <= j < |inserts| ==> inserts[j] == k.inserts[j]
      invariant forall j :: 0 <= j < i ==> inserts[j] == Filtered(k.inserts[j], lookup.value, same)
      invariant !changed ==> inserts == k.inserts
    {
      var insert := inserts[i];
      if insert.condition.Some? && !insert.disabled && !Admitted(insert, lookup.value, same) {
        inserts := inserts[i := insert.(disabled := true)];
        changed := true;
      }
    }
    assert inserts == Where(k, lookup.value, same).inserts;
    r := if changed then k.(inserts := inserts) else k;
  }

  /** The condition has been seen to hold: its topic sent the value, or with a
      negated condition another one. */
  predicate MeetsCondition(p: PageInsert, lookup: string -> Option<string>, same: (string, string) -> bool) {
    p.condition.Some? ==>
      var c, seen := p.condition.value, lookup(p.condition.value.topic);
      seen.Some? && if c.negate then !same(TrimSpace(seen.value), TrimSpace(c.value)) else same(TrimSpace(seen.value), TrimSpace(c.value))
  }

  lemma AdmittedMeans(p: PageInsert, lookup: string -> Option<string>, same: (string, string) -> bool)
    ensures Admitted(p, lookup, same) <==> MeetsCondition(p, lookup, same)
  {
    hide TrimSpace;
  }

  /** The filtered configuration has exactly the runs whose condition holds. */
  lemma ConditionalRuns(k: KioskConfig, lookup: string -> Option<string>, same: (string, string) -> bool, s: InsertSlot)
    ensures IsRun(Where(k, lookup, same), s) <==> IsRun(k, s) && Admitted(s.insert, lookup, same)
    ensures IsRun(Where(k, lookup, same), s) <==> IsRun(k, s) && MeetsCondition(s.insert, lookup, same)
  {
    AdmittedMeans(s.insert, lookup, same);
    hide Admitted, TrimSpace, DayOf, MinuteOf, Duration, WeekdayMatches;
  }

  // ------------------------------------------------------------------ order

  predicate Running(s: InsertSlot, t: Time) {
    s.start <= t < s.end
  }

  predicate Overlaps(s: InsertSlot, from: Time, to: Time) {
    from < s.end && s.start < to
  }

  predicate Before(a: InsertSlot, b: InsertSlot) {
    a.start < b.start || (a.start == b.start && a.index < b.index)
  }

  predicate InOrder(slots: seq<InsertSlot>) {
    forall i, j :: 0 <= i < j < |slots| ==> Before(slots[i], slots[j])
  }

  // ------------------------------------------------------- enumerating runs

  method IntervalMinutes(step: int) returns (out: seq<int>)
    requires step > 0
    ensures Increasing(out) && forall m :: m in out <==> 0 <= m < 1440 && m % step == 0
  {
    out := [];
    var minute := 0;
    ghost var n := 0;
    while minute < 24 * 60
      invariant 0 <= minute == n * step
      invariant Increasing(out) && forall m <- out :: m < minute
      invariant forall m :: m in out <==> 0 <= m < minute && m < 1440 && m % step == 0
    {
      forall m | minute <= m < minute + step ensures m % step == m - minute {
        ModUnique(m, n, step);
      }
      AppendIncreasing(out, minute);
      out := out + [minute];
      minute := minute + step;
      n := n + 1;
    }
  }

  method HourlyMinutes(at: int) returns (out: seq<int>)
    requires 0 <= at <= 59
    ensures Increasing(out) && forall m :: m in out <==> 0 <= m < 1440 && m % 60 == at
  {
    out := [];
    for hour := 0 to 24
      invariant Increasing(out) && forall m <- out :: m < hour * 60
      invariant forall m :: m in out <==> 0 <= m < hour * 60 && m % 60 == at
    {
      AppendIncreasing(out, hour * 60 + at);
      assert forall m :: hour * 60 <= m < hour * 60 + 60 && m % 60 == at ==> m == hour * 60 + at;
      out := out + [hour * 60 + at];
    }
  }

  method TimesMinutes(k: KioskConfig, times: seq<string>, day: int) returns (out: seq<int>)
    ensures Increasing(out) && forall m :: m in out <==> exists at <- times :: k.resolve(at, day) == Some(m)
  {
    out := [];
    for i := 0 to |times|
      invariant forall m :: m in out <==> exists at <- times[..i] :: k.resolve(at, day) == Some(m)
    {
      assert times[..i + 1] == times[..i] + [times[i]];
      match k.resolve(times[i], day)
      case Some(minute) => out := out + [minute];
      case None =>
    }
    assert times[..|times|] == times;
    out := Compact(SortInts(out));
  }

  /** The minutes of a day at which p starts, in order and without repeats. */
  method SlotMinutes(k: KioskConfig, p: PageInsert, day: int) returns (out: seq<int>)
    requires k.ClockBounded()
    ensures Increasing(out)
    ensures forall m :: m in out <==> StartsAt(k, p, day, m)
  {
    out := [];
    match p.repeat {
      case Interval =>
        if p.everyMinutes <= 0 { return; }
        out := IntervalMinutes(p.everyMinutes);
      case Hourly =>
        if p.minute < 0 || p.minute > 59 { return; }
        out := HourlyMinutes(p.minute);
      case Times =>
        out := TimesMinutes(k, p.times, day);
      case OtherRepeat(_) =>
    }
  }

  lemma ModUnique(a: int, q: int, step: int)
    requires step > 0 && q * step <= a < q * step + step
    ensures a % step == a - q * step
  {
    var d := a / step - q;
    assert d * step == (a / step) * step - q * step;
    assert d >= 1 ==> d * step >= step;
    assert d <= -1 ==> d * step <= -step;
  }

  function InsertSlotSorted(x: InsertSlot, s: seq<InsertSlot>): (r: seq<InsertSlot>)
    requires InOrder(s) && forall y <- s :: Before(x, y) || Before(y, x)
    ensures InOrder(r) && forall y :: y in r <==> y == x || y in s
  {
    if s == [] || Before(x, s[0]) then [x] + s
    else
      var r := InsertSlotSorted(x, s[1..]);
      assert forall y <- r :: Before(s[0], y) by {
        forall y <- r ensures Before(s[0], y) { assert y == x || y in s[1..]; }
      }
      [s[0]] + r
  }

  predicate KeysDiffer(s: seq<InsertSlot>) {
    forall i, j :: 0 <= i < j < |s| ==> Before(s[i], s[j]) || Before(s[j], s[i])
  }

  /** The library sort by start, then index. */
  function SortSlots(s: seq<InsertSlot>): (r: seq<InsertSlot>)
    requires KeysDiffer(s)
    ensures InOrder(r) && forall y :: y in r <==> y in s
  {
    if s == [] then [] else InsertSlotSorted(s[0], SortSlots(s[1..]))
  }

  /** Every run that overlaps [from, to) and no other, by start, then index. */
  ghost predicate SlotList(k: KioskConfig, from: Time, to: Time, out: seq<InsertSlot>) {
    && InOrder(out)
    && forall s :: s in out <==> IsRun(k, s) && Overlaps(s, from, to)
  }

  /** What the nested loops have collected when they reach (index, day) and the
      minutes below `minute` of that day. */
  ghost predicate Collected(k: KioskConfig, from: Time, to: Time, index: int, day: int, minute: int, out: seq<InsertSlot>) {
    && (forall i, j :: 0 <= i < j < |out| ==>
          out[i].index < out[j].index || (out[i].index == out[j].index && out[i].start < out[j].start))
    && forall s :: s in out <==> IsRun(k, s) && Overlaps(s, from, to) && Visited(s, index, day, minute)
  }

  ghost predicate Visited(s: InsertSlot, index: int, day: int, minute: int) {
    s.index < index || (s.index == index &&
      (DayOf(s.start) < day || (DayOf(s.start) == day && MinuteOf(s.start) < minute)))
  }

  method DaySlots(k: KioskConfig, from: Time, to: Time, index: nat, day: int, before: seq<InsertSlot>)
    returns (out: seq<InsertSlot>)
    requires k.ClockBounded() && index < |k.inserts| && Eligible(k, k.inserts[index])
    requires Collected(k, from, to, index, day, 0, before)
    ensures Collected(k, from, to, index, day + 1, 0, out)
  {
    hide Eligible, Allows, IsRun, Collected, DayOf, MinuteOf;
    out := before;
    var insert := k.inserts[index];
    var duration := Duration(insert);
    var minutes := SlotMinutes(k, insert, day);
    ghost var reached := 0;
    for i := 0 to |minutes|
      invariant 0 <= reached == if i == 0 then 0 else minutes[i - 1] + 1
      invariant Collected(k, from, to, index, day, reached, out)
    {
      var minute := minutes[i];
      var slot := InsertSlot(insert, index, At(day, minute), At(day, minute) + duration);
      assert StartsAt(k, insert, day, minute) by { assert minute in minutes; }
      OnlyMinute(k, insert, day, reached, minutes, i);
      Extend(k, from, to, index, day, reached, minute, out);
      if Overlaps(slot, from, to) && Allows(k, insert, day, minute) {
        out := out + [slot];
      }
      reached := minute + 1;
    }
    OnlyMinute(k, insert, day, reached, minutes, |minutes|);
    DayDone(k, from, to, index, day, reached, out);
  }

  function SlotAt(k: KioskConfig, index: nat, day: int, minute: int): InsertSlot
    requires index < |k.inserts|
  {
    var insert := k.inserts[index];
    InsertSlot(insert, index, At(day, minute), At(day, minute) + Duration(insert))
  }

  /** One more start minute: the run at this minute is the only new one. */
  lemma NewlyVisited(k: KioskConfig, index: nat, day: int, reached: int, minute: int)
    requires k.ClockBounded() && index < |k.inserts| && Eligible(k, k.inserts[index])
    requires 0 <= reached <= minute && StartsAt(k, k.inserts[index], day, minute)
    requires forall m :: reached <= m < minute ==> !StartsAt(k, k.inserts[index], day, m)
    ensures var slot := SlotAt(k, index, day, minute);
      && (IsRun(k, slot) <==> Allows(k, k.inserts[index], day, minute))
      && !Visited(slot, index, day, reached)
      && forall s :: IsRun(k, s) ==>
           (Visited(s, index, day, minute + 1) <==> Visited(s, index, day, reached) || s == slot)
  {
    AtParts(day, minute);
    ChecksExactly(k, k.inserts[index], day, minute);
    RunEnds(k.inserts[index]);
    assert 0 <= minute < 1440;
    hide Eligible, Duration, Allows, StartsAt, DayOf, MinuteOf, MayStart, KioskConfig.ClockBounded;
    forall s | IsRun(k, s) && s.index == index && DayOf(s.start) == day && reached <= MinuteOf(s.start) <= minute
      ensures s == SlotAt(k, index, day, minute)
    {
      assert StartsAt(k, s.insert, day, MinuteOf(s.start)) by { RunStartsAt(k, s); }
      assert MinuteOf(s.start) == minute;
    }
  }

  lemma RunStartsAt(k: KioskConfig, s: InsertSlot)
    requires IsRun(k, s)
    ensures StartsAt(k, s.insert, DayOf(s.start), MinuteOf(s.start))
  {
  }

  lemma RunEnds(p: PageInsert)
    requires Duration(p) > 0
    ensures Duration(p) == if p.durationSeconds < 3600 then p.durationSeconds * SECOND else HOUR
  {
  }

  lemma Extend(k: KioskConfig, from: Time, to: Time, index: nat, day: int, reached: int, minute: int, out: seq<InsertSlot>)
    requires k.ClockBounded() && index < |k.inserts| && Eligible(k, k.inserts[index])
    requires Collected(k, from, to, index, day, reached, out)
    requires 0 <= reached <= minute && StartsAt(k, k.inserts[index], day, minute)
    requires forall m :: reached <= m < minute ==> !StartsAt(k, k.inserts[index], day, m)
    ensures var slot := SlotAt(k, index, day, minute);
      Collected(k, from, to, index, day, minute + 1,
        if Overlaps(slot, from, to) && Allows(k, k.inserts[index], day, minute) then out + [slot] else out)
  {
    hide IsRun, Eligible, StartsAt, Allows, DayOf, MinuteOf, At, Duration;
    var slot := SlotAt(k, index, day, minute);
    NewlyVisited(k, index, day, reached, minute);
    forall i | 0 <= i < |out|
      ensures out[i].index < slot.index || (out[i].index == slot.index && out[i].start < slot.start)
    {
      assert out[i] in out;
      EarlierStart(k, out[i], index, day, reached, minute);
    }
    hide Visited, SlotAt;
    assert forall s :: s in out + [slot] <==> s in out || s == slot;
  }

  lemma EarlierStart(k: KioskConfig, s: InsertSlot, index: nat, day: int, reached: int, minute: int)
    requires IsRun(k, s) && Visited(s, index, day, reached) && reached <= minute && 0 <= minute
    ensures s.index < index || (s.index == index && s.start < At(day, minute))
  {
    DayBounds(s.start);
  }

  lemma DayDone(k: KioskConfig, from: Time, to: Time, index: nat, day: int, reached: int, out: seq<InsertSlot>)
    requires index < |k.inserts|
    requires Collected(k, from, to, index, day, reached, out)
    requires forall m :: reached <= m ==> !StartsAt(k, k.inserts[index], day, m)
    ensures Collected(k, from, to, index, day + 1, 0, out)
  {
    forall s | IsRun(k, s) ensures Visited(s, index, day, reached) <==> Visited(s, index, day + 1, 0) {
    }
  }

  /** No run starts between two consecutive minutes of the list. */
  lemma OnlyMinute(k: KioskConfig, insert: PageInsert, day: int, reached: int, minutes: seq<int>, i: nat)
    requires i <= |minutes| && Increasing(minutes)
    requires forall m :: m in minutes <==> StartsAt(k, insert, day, m)
    requires reached == if i == 0 then 0 else minutes[i - 1] + 1
    ensures forall m :: reached <= m && StartsAt(k, insert, day, m) ==> i < |minutes| && minutes[i] <= m
  {
    forall m | reached <= m && StartsAt(k, insert, day, m) ensures i < |minutes| && minutes[i] <= m {
      assert m in minutes;
      var j :| 0 <= j < |minutes| && minutes[j] == m;
    }
  }

  lemma DayBounds(t: Time)
    ensures At(DayOf(t), 0) <= t < At(DayOf(t) + 1, 0)
  {
  }

  /** A run that overlaps the query starts on the day before `from` at the
      earliest: it lasts an hour at most, so one day of look-back is enough. */
  lemma LookBackSuffices(k: KioskConfig, from: Time, to: Time, s: InsertSlot)
    requires IsRun(k, s) && Overlaps(s, from, to)
    ensures DayOf(from) - 1 <= DayOf(s.start) && At(DayOf(s.start), 0) < to
  {
    DayBounds(from);
    DayBounds(s.start);
  }

  lemma FirstDay(k: KioskConfig, from: Time, to: Time, index: nat, out: seq<InsertSlot>)
    requires Collected(k, from, to, index, DayOf(from) - 1, 0, out)
    requires index < |k.inserts| && !Eligible(k, k.inserts[index])
    ensures Collected(k, from, to, index + 1, DayOf(from) - 1, 0, out)
  {
    forall s | IsRun(k, s) && Overlaps(s, from, to) ensures DayOf(s.start) >= DayOf(from) - 1 {
      LookBackSuffices(k, from, to, s);
    }
  }

  lemma LastDay(k: KioskConfig, from: Time, to: Time, index: nat, day: int, out: seq<InsertSlot>)
    requires Collected(k, from, to, index, day, 0, out)
    requires At(day, 0) >= to
    ensures Collected(k, from, to, index + 1, DayOf(from) - 1, 0, out)
  {
    hide IsRun, Overlaps, DayOf, MinuteOf;
    forall s | IsRun(k, s) && Overlaps(s, from, to) ensures DayOf(from) - 1 <= DayOf(s.start) < day {
      LookBackSuffices(k, from, to, s);
    }
    hide At;
  }

  /** Two queries list the same runs for every instant they share. */
  lemma QueriesAgree(k: KioskConfig, from: Time, to: Time, a: seq<InsertSlot>, start: Time, end: Time, b: seq<InsertSlot>, t: Time)
    requires SlotList(k, from, to, a) && SlotList(k, start, end, b)
    requires from <= t < to && start <= t < end
    ensures forall s :: Running(s, t) ==> (s in a <==> s in b)
  {
    hide IsRun;
  }

  method InsertSlots(k: KioskConfig, from: Time, to: Time) returns (out: seq<InsertSlot>)
    requires k.ClockBounded()
    ensures to <= from ==> out == []
    ensures from < to ==> SlotList(k, from, to, out)
    ensures forall s <- out :: s.index < |k.inserts| && s.insert == k.inserts[s.index] && MayStart(k, s.insert, DayOf(s.start), MinuteOf(s.start))
    ensures forall s <- out :: from < s.end && s.start < to
    ensures forall i, j :: 0 <= i < j < |out| ==> out[i].start < out[j].start || (out[i].start == out[j].start && out[i].index < out[j].index)
    ensures from < to ==> forall index, day, minute :: 0 <= index < |k.inserts| && MayStart(k, k.inserts[index], day, minute) ==>
      var p, at := k.inserts[index], At(day, minute);
      var end := at + if p.durationSeconds < 3600 then p.durationSeconds * SECOND else HOUR;
      from < end && at < to ==> InsertSlot(p, index, at, end) in out
  {
    out := [];
    if to <= from { return; }
    var first := DayOf(from) - 1;
    NothingCollected(k, from, to);
    hide Collected, SlotList, IsRun, StartsAt, Allows, DayOf, MinuteOf, KeysDiffer;
    for index := 0 to |k.inserts|
      invariant Collected(k, from, to, index, first, 0, out)
    {
      var insert := k.inserts[index];
      if insert.disabled || k.EnabledPageIndex(insert.pageID) < 0 || Duration(insert) <= 0 {
        assert !Eligible(k, insert);
        FirstDay(k, from, to, index, out);
        continue;
      }
      var day := first;
      while At(day, 0) < to
        invariant first <= day
        invariant Collected(k, from, to, index, day, 0, out)
        decreases if At(day, 0) < to then to - At(day, 0) else 0
      {
        out := DaySlots(k, from, to, index, day, out);
        day := day + 1;
      }
      LastDay(k, from, to, index, day, out);
    }
    AllCollected(k, from, to, out);
    ghost var all := out;
    out := SortSlots(out);
    Listed(k, from, to, all, out);
    ListedExactly(k, from, to, out);
  }

  lemma ListedExactly(k: KioskConfig, from: Time, to: Time, out: seq<InsertSlot>)
    requires SlotList(k, from, to, out)
    ensures forall s <- out :: s.index < |k.inserts| && s.insert == k.inserts[s.index] && MayStart(k, s.insert, DayOf(s.start), MinuteOf(s.start))
    ensures forall s <- out :: from < s.end && s.start < to
    ensures forall i, j :: 0 <= i < j < |out| ==> out[i].start < out[j].start || (out[i].start == out[j].start && out[i].index < out[j].index)
    ensures forall index, day, minute :: 0 <= index < |k.inserts| && MayStart(k, k.inserts[index], day, minute) ==>
      var p, at := k.inserts[index], At(day, minute);
      var end := at + if p.durationSeconds < 3600 then p.durationSeconds * SECOND else HOUR;
      from < end && at < to ==> InsertSlot(p, index, at, end) in out
  {
    forall index, day, minute | 0 <= index < |k.inserts| && MayStart(k, k.inserts[index], day, minute)
      ensures var p, at := k.inserts[index], At(day, minute);
        var end := at + if p.durationSeconds < 3600 then p.durationSeconds * SECOND else HOUR;
        from < end && at < to ==> InsertSlot(p, index, at, end) in out
    {
      var p, at := k.inserts[index], At(day, minute);
      var s := InsertSlot(p, index, at, at + if p.durationSeconds < 3600 then p.durationSeconds * SECOND else HOUR);
      AtParts(day, minute);
      assert IsRun(k, s);
    }
  }

  lemma NothingCollected(k: KioskConfig, from: Time, to: Time)
    ensures Collected(k, from, to, 0, DayOf(from) - 1, 0, [])
  {
    forall s | IsRun(k, s) && Overlaps(s, from, to) ensures !Visited(s, 0, DayOf(from) - 1, 0) {
      LookBackSuffices(k, from, to, s);
    }
  }

  lemma AllCollected(k: KioskConfig, from: Time, to: Time, out: seq<InsertSlot>)
    requires Collected(k, from, to, |k.inserts|, DayOf(from) - 1, 0, out)
    ensures KeysDiffer(out) && forall s :: s in out <==> IsRun(k, s) && Overlaps(s, from, to)
  {
    hide StartsAt, Allows, Eligible, DayOf, MinuteOf;
  }

  lemma Listed(k: KioskConfig, from: Time, to: Time, all: seq<InsertSlot>, out: seq<InsertSlot>)
    requires forall s :: s in all <==> IsRun(k, s) && Overlaps(s, from, to)
    requires InOrder(out) && forall s :: s in out <==> s in all
    ensures SlotList(k, from, to, out)
  {
    hide IsRun;
  }
}
