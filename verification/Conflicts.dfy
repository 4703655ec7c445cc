/** Warnings about time rules that claim the same time, against what the
    scheduler really does with those rules. */
module Conflicts {
  import opened Text
  import opened Config
  import opened Clocks
  import opened Scheduler

  // ------------------------------------------------------------- the check

  /** At most the first three letters, in lower case. */
  function ShortDay(day: string): (r: string)
    ensures |r| <= 3 && r <= Lower(TrimSpace(day)) && (|r| < 3 ==> r == Lower(TrimSpace(day)))
  {
    var d := Lower(TrimSpace(day));
    if |d| > 3 then d[..3] else d
  }

  predicate DaysOverlap(a: seq<string>, b: seq<string>) {
    || a == [] || b == []
    || exists day <- a, other <- b :: ShortDay(other) == ShortDay(day)
  }

  /** Same-day minute ranges of a window that may cross midnight. */
  function ClockSegments(start: int, end: int): seq<(int, int)> {
    if start == end then [(0, 1440)]
    else if start < end then [(start, end)]
    else [(start, 1440), (0, end)]
  }

  predicate Meet(x: (int, int), y: (int, int)) { x.0 < y.1 && y.0 < x.1 }

  predicate SegmentsMeet(a: seq<(int, int)>, b: seq<(int, int)>) {
    exists i, j :: 0 <= i < |a| && 0 <= j < |b| && Meet(a[i], b[j])
  }

  predicate ValidClocks(rule: TimeRule) { ValidClock(rule.start) && ValidClock(rule.end) }

  function Segments(rule: TimeRule): seq<(int, int)> {
    ClockSegments(ClockMinutes(rule.start), ClockMinutes(rule.end))
  }

  predicate TimeRulesOverlap(a: TimeRule, b: TimeRule) {
    && DaysOverlap(a.days, b.days)
    && ValidClocks(a) && ValidClocks(b)
    && SegmentsMeet(Segments(a), Segments(b))
  }

  // --------------------------------------------------- what the rules do

  predicate Recognised(days: seq<string>) {
    forall day <- days :: exists w :: 0 <= w < 7 && NamesDay(day, w)
  }

  /** Some minute of some day at which the scheduler finds both active. */
  ghost predicate BothActive(k: KioskConfig, a: TimeRule, b: TimeRule) {
    exists day: int, minute: int :: 0 <= minute < 1440 && RuleActive(k, a, day, minute) && RuleActive(k, b, day, minute)
  }

  /** The window covers no minute for the scheduler and all for the check. */
  predicate Degenerate(rule: TimeRule) { ClockMinutes(rule.start) == ClockMinutes(rule.end) }

  predicate InSegments(segments: seq<(int, int)>, minute: int) {
    exists i :: 0 <= i < |segments| && segments[i].0 <= minute < segments[i].1
  }

  lemma WindowSegments(start: int, end: int, minute: int)
    requires 0 <= start < 1440 && 0 <= end < 1440 && 0 <= minute < 1440
    ensures InWindow(start, end, minute) <==> InSegments(ClockSegments(start, end), minute) && start != end
  {
    var s := ClockSegments(start, end);
    assert start < end ==> s[0] == (start, end);
    assert start > end ==> s[0] == (start, 1440) && s[1] == (0, end);
  }

  /** A range of minutes of the day; an empty one stands at midnight. */
  predicate InDay(x: (int, int)) { 0 <= x.0 < x.1 <= 1440 || x == (0, 0) }

  /** Ranges within the day meet exactly when some minute is in both. */
  lemma SegmentsMeetAtAMinute(a: seq<(int, int)>, b: seq<(int, int)>)
    requires forall x <- a + b :: InDay(x)
    ensures SegmentsMeet(a, b) <==> exists m :: 0 <= m < 1440 && InSegments(a, m) && InSegments(b, m)
  {
    if SegmentsMeet(a, b) {
      var i, j :| 0 <= i < |a| && 0 <= j < |b| && Meet(a[i], b[j]);
      assert a[i] in a + b && b[j] in a + b;
      var m := if a[i].0 < b[j].0 then b[j].0 else a[i].0;
      assert InSegments(a, m) && InSegments(b, m);
    }
    forall m | 0 <= m < 1440 && InSegments(a, m) && InSegments(b, m) ensures SegmentsMeet(a, b) {
      var i :| 0 <= i < |a| && a[i].0 <= m < a[i].1;
      var j :| 0 <= j < |b| && b[j].0 <= m < b[j].1;
      assert Meet(a[i], b[j]);
    }
  }

  // ---------------------------------------------------------------- the days

  lemma ShortDayName(day: string, w: nat)
    requires w < 7 && NamesDay(day, w)
    ensures ShortDay(day) == Long(w)[..3]
  {
    hide Lower, TrimSpace, Long;
  }

  /** The check's days meet exactly when some weekday suits both lists. */
  lemma DaysMeetOnAWeekday(a: seq<string>, b: seq<string>)
    requires Recognised(a) && Recognised(b)
    ensures DaysOverlap(a, b) <==> exists w :: 0 <= w < 7 && WeekdayMatches(a, w) && WeekdayMatches(b, w)
  {
    hide NamesDay, ShortDay, Long;
    if a == [] && b == [] {
      assert WeekdayMatches(a, 0) && WeekdayMatches(b, 0);
    } else if a == [] || b == [] {
      var days := if a == [] then b else a;
      assert days[0] in days;
      var w :| 0 <= w < 7 && NamesDay(days[0], w);
      assert WeekdayMatches(a, w) && WeekdayMatches(b, w);
    } else {
      forall day <- a, other <- b | ShortDay(other) == ShortDay(day)
        ensures exists w :: 0 <= w < 7 && WeekdayMatches(a, w) && WeekdayMatches(b, w)
      {
        var v :| 0 <= v < 7 && NamesDay(day, v);
        var w :| 0 <= w < 7 && NamesDay(other, w);
        ShortDayName(day, v);
        ShortDayName(other, w);
        FirstLetters(v, w);
        assert WeekdayMatches(a, w) && WeekdayMatches(b, w);
      }
      forall w | 0 <= w < 7 && WeekdayMatches(a, w) && WeekdayMatches(b, w) ensures DaysOverlap(a, b) {
        var day :| day in a && NamesDay(day, w);
        var other :| other in b && NamesDay(other, w);
        ShortDayName(day, w);
        ShortDayName(other, w);
      }
    }
  }

  // ----------------------------------------------------------- the theorem

  lemma ActiveInSegments(k: KioskConfig, rule: TimeRule, day: int, minute: int)
    requires ValidClocks(rule) && !rule.disabled && 0 <= minute < 1440
    ensures RuleActive(k, rule, day, minute) <==>
      WeekdayMatches(rule.days, Weekday(day)) && InSegments(Segments(rule), minute) && !Degenerate(rule)
  {
    ParsersAgree(rule.start);
    ParsersAgree(rule.end);
    WindowSegments(ClockMinutes(rule.start), ClockMinutes(rule.end), minute);
    hide ParseClock, ClockMinutes, ValidClock, WeekdayMatches, InSegments, ClockSegments;
  }

  lemma SegmentsInDay(rule: TimeRule)
    requires ValidClocks(rule)
    ensures forall x <- Segments(rule) :: InDay(x)
    ensures Segments(rule) != [] && Segments(rule)[0].0 < Segments(rule)[0].1
  {
    ParsersAgree(rule.start);
    ParsersAgree(rule.end);
    hide ParseClock, ClockMinutes, ValidClock;
  }

  /** For enabled rules with HH:MM clocks and known day names: the scheduler can
      find both active exactly when the check reports them and neither window
      starts where it ends. */
  lemma OverlapExactly(k: KioskConfig, a: TimeRule, b: TimeRule)
    requires !a.disabled && !b.disabled && ValidClocks(a) && ValidClocks(b)
    requires Recognised(a.days) && Recognised(b.days)
    ensures BothActive(k, a, b) <==> TimeRulesOverlap(a, b) && !Degenerate(a) && !Degenerate(b)
  {
    if TimeRulesOverlap(a, b) && !Degenerate(a) && !Degenerate(b) { OverlapIsReal(k, a, b); }
    if BothActive(k, a, b) { BothActiveIsReported(k, a, b); }
    hide *;
  }

  lemma OverlapIsReal(k: KioskConfig, a: TimeRule, b: TimeRule)
    requires !a.disabled && !b.disabled && Recognised(a.days) && Recognised(b.days)
    requires TimeRulesOverlap(a, b) && !Degenerate(a) && !Degenerate(b)
    ensures BothActive(k, a, b)
  {
    hide TimeRulesOverlap, Recognised, Degenerate, RuleActive, WeekdayMatches, ValidClock;
    var w, m := CommonMinute(a, b);
    assert Weekday(w - 4) == w;
    ActiveInSegments(k, a, w - 4, m);
    ActiveInSegments(k, b, w - 4, m);
  }

  lemma CommonMinute(a: TimeRule, b: TimeRule) returns (w: int, m: int)
    requires Recognised(a.days) && Recognised(b.days) && TimeRulesOverlap(a, b)
    ensures ValidClocks(a) && ValidClocks(b)
    ensures 0 <= w < 7 && WeekdayMatches(a.days, w) && WeekdayMatches(b.days, w)
    ensures 0 <= m < 1440 && InSegments(Segments(a), m) && InSegments(Segments(b), m)
  {
    DaysMeetOnAWeekday(a.days, b.days);
    SegmentsInDay(a);
    SegmentsInDay(b);
    SegmentsMeetAtAMinute(Segments(a), Segments(b));
    hide DaysOverlap, SegmentsMeet, Segments, Recognised, ValidClocks, InSegments, WeekdayMatches;
    w :| 0 <= w < 7 && WeekdayMatches(a.days, w) && WeekdayMatches(b.days, w);
    m :| 0 <= m < 1440 && InSegments(Segments(a), m) && InSegments(Segments(b), m);
  }

  lemma BothActiveIsReported(k: KioskConfig, a: TimeRule, b: TimeRule)
    requires !a.disabled && !b.disabled && ValidClocks(a) && ValidClocks(b)
    requires Recognised(a.days) && Recognised(b.days) && BothActive(k, a, b)
    ensures TimeRulesOverlap(a, b) && !Degenerate(a) && !Degenerate(b)
  {
    var day, minute :| 0 <= minute < 1440 && RuleActive(k, a, day, minute) && RuleActive(k, b, day, minute);
    ActiveInSegments(k, a, day, minute);
    ActiveInSegments(k, b, day, minute);
    DaysMeetOnAWeekday(a.days, b.days);
    SegmentsInDay(a);
    SegmentsInDay(b);
    SegmentsMeetAtAMinute(Segments(a), Segments(b));
    hide DaysOverlap, SegmentsMeet, Segments, Recognised, ValidClocks, Degenerate, InSegments, RuleActive, WeekdayMatches;
  }

  /** A window that starts where it ends is reported against every rule of its
      days, and never runs. */
  lemma DegenerateWindowsOverReport(k: KioskConfig, a: TimeRule, b: TimeRule)
    requires !a.disabled && !b.disabled && ValidClocks(a) && ValidClocks(b)
    requires Degenerate(a) && DaysOverlap(a.days, b.days)
    ensures TimeRulesOverlap(a, b) && !BothActive(k, a, b)
  {
    SegmentsInDay(b);
    assert Meet(Segments(a)[0], Segments(b)[0]);
    forall day, minute | 0 <= minute < 1440 ensures !RuleActive(k, a, day, minute) {
      ActiveInSegments(k, a, day, minute);
    }
    hide DaysOverlap, Segments, ValidClocks, RuleActive;
  }

  /** Two digits for the hour and two for the minute are a clock that the check
      accepts, and denote that minute of the day. */
  lemma PlainClock(hour: string, minute: string)
    requires |hour| == 2 && AllDigits(hour) && Number(hour) < 24
    requires |minute| == 2 && AllDigits(minute) && Number(minute) < 60
    ensures var clock := hour + ":" + minute; ValidClock(clock) && ClockMinutes(clock) == Number(hour) * 60 + Number(minute)
  {
    hide Split, TrimSpace, Number, Atoi, AllDigits;
    ClockParts(hour, minute);
    SmallNumber(hour);
    SmallNumber(minute);
  }

  lemma ClockParts(hour: string, minute: string)
    requires |hour| == 2 && AllDigits(hour) && |minute| == 2 && AllDigits(minute)
    ensures Split(TrimSpace(hour + ":" + minute), ':') == [hour, minute]
  {
    var clock := hour + ":" + minute;
    assert hour[0] in hour && minute[1] in minute && ':' !in hour && ':' !in minute;
    assert clock[0] == hour[0] && clock[|clock| - 1] == minute[1];
    AlreadyTrimmed(clock);
    hide TrimSpace, AllDigits, IsSpace;
    OnePiece(hour, ':');
    SplitLast(hour, ':', minute);
    assert clock == hour + [':'] + minute;
  }

  lemma SmallNumber(s: string)
    requires |s| == 2 && AllDigits(s)
    ensures Atoi(s) == Some(Number(s))
  {
    assert s[0] in s && s[1] in s;
    assert s[..1] == [s[0]] && s == [s[0], s[1]];
    TwoDigits(s[0], s[1]);
    hide Number;
  }

  lemma TwoDigits(a: char, b: char)
    requires IsDigit(a) && IsDigit(b)
    ensures AllDigits([a, b]) && Number([a, b]) <= 99
  {
    assert [a, b][..1] == [a] && [a][..0] == "";
    assert Number([a]) <= 9;
  }

  lemma NoMinutes()
    ensures AllDigits("00") && Number("00") == 0
  {
  }

  lemma HourRule(rule: TimeRule, from: string, to: string)
    requires |from| == 2 && AllDigits(from) && Number(from) < 24 && rule.start == from + ":00"
    requires |to| == 2 && AllDigits(to) && Number(to) < 24 && rule.end == to + ":00"
    ensures ValidClocks(rule) && Segments(rule) == ClockSegments(Number(from) * 60, Number(to) * 60)
    ensures Degenerate(rule) <==> Number(from) == Number(to)
  {
    hide ValidClock, ClockMinutes, Number, AllDigits;
    NoMinutes();
    PlainClock(from, "00");
    PlainClock(to, "00");
    assert from + ":00" == from + ":" + "00" && to + ":00" == to + ":" + "00";
  }

  lemma Hours()
    ensures AllDigits("22") && AllDigits("06") && AllDigits("05") && AllDigits("07")
    ensures Number("22") == 22 && Number("06") == 6 && Number("05") == 5 && Number("07") == 7
  {
  }

  /** An instance across midnight: a night from 22 to 6 meets a morning from 5 to
      7. */
  lemma NightMeetsMorning(k: KioskConfig, night: TimeRule, morning: TimeRule)
    requires night.start == "22" + ":00" && night.end == "06" + ":00" && !night.disabled && night.days == []
    requires morning.start == "05" + ":00" && morning.end == "07" + ":00" && !morning.disabled && morning.days == []
    ensures TimeRulesOverlap(night, morning) && BothActive(k, night, morning)
  {
    hide Number, AllDigits, ValidClocks, Segments, Degenerate, BothActive;
    Hours();
    HourRule(night, "22", "06");
    HourRule(morning, "05", "07");
    var a, b := Segments(night), Segments(morning);
    assert a[1] == (0, 360) && b[0] == (300, 420) && Meet(a[1], b[0]);
    assert SegmentsMeet(a, b);
    OverlapExactly(k, night, morning);
  }

  /** Of two rules that the scheduler does find active at once, the check reports
      exactly those whose clocks are all plain HH:MM. */
  lemma RealOverlapsReportedExactly(k: KioskConfig, a: TimeRule, b: TimeRule)
    requires !a.disabled && !b.disabled && Recognised(a.days) && Recognised(b.days)
    requires BothActive(k, a, b)
    ensures TimeRulesOverlap(a, b) <==> ValidClocks(a) && ValidClocks(b)
  {
    if ValidClocks(a) && ValidClocks(b) { BothActiveIsReported(k, a, b); }
    hide BothActive, Recognised, ValidClocks;
  }

  /** The scheduler accepts clocks with seconds, which the check ignores. */
  lemma ClocksWithSecondsAreMissed(k: KioskConfig)
    ensures var a := TimeRule("a", 0, "08:00:00", "09:00:00", [], false);
      BothActive(k, a, a.(page := 1)) && !TimeRulesOverlap(a, a.(page := 1))
  {
    hide ParseClock, ValidClock, TimeRulesOverlap;
    var a := TimeRule("a", 0, "08:00:00", "09:00:00", [], false);
    FullHour("08", 8);
    FullHour("09", 9);
    assert "08" + ":00:00" == a.start && "09" + ":00:00" == a.end;
    assert !TimeRulesOverlap(a, a.(page := 1)) by { FirstClockCounts(a, a.(page := 1)); }
    assert RuleActive(k, a, 0, 500) && RuleActive(k, a.(page := 1), 0, 500);
  }

  lemma FirstClockCounts(a: TimeRule, b: TimeRule)
    requires !ValidClock(a.start)
    ensures !TimeRulesOverlap(a, b)
  {
  }

  lemma FullHour(hour: string, n: nat)
    requires (hour == "08" && n == 8) || (hour == "09" && n == 9)
    ensures ParseClock(hour + ":00:00") == Some(n * 60) && !ValidClock(hour + ":00:00")
  {
    WithSeconds(hour);
    assert TrimSpace(hour + ":00:00") == hour + ":00:00";
    assert Number("08") == 8 && Number("09") == 9 && Number("00") == 0;
    hide Split, TrimSpace, Number;
  }

  lemma WithSeconds(hour: string)
    requires ':' !in hour
    ensures Split(hour + ":00:00", ':') == [hour, "00", "00"]
  {
    OnePiece(hour, ':');
    SplitLast(hour, ':', "00");
    SplitLast(hour + ":00", ':', "00");
    assert hour + ":00" == hour + [':'] + "00" && hour + ":00:00" == hour + ":00" + [':'] + "00";
  }

  // ------------------------------------------------------------- the list

  datatype Conflict = Conflict(first: string, second: string)

  function EnabledRules(rules: seq<TimeRule>): seq<TimeRule> {
    if rules == [] then []
    else EnabledRules(rules[..|rules| - 1]) + if rules[|rules| - 1].disabled then [] else [rules[|rules| - 1]]
  }

  function Label(rule: TimeRule, index: nat): string {
    (if Blank(rule.name) then "time rule " + Decimal(index + 1) else rule.name)
    + " (" + rule.start + "-" + rule.end + ")"
  }

  predicate Clash(a: TimeRule, b: TimeRule) { a.page != b.page && TimeRulesOverlap(a, b) }

  /** The warnings about rule i and the later rules below n. */
  function Row(rules: seq<TimeRule>, i: nat, n: nat): seq<Conflict>
    requires i < |rules| && n <= |rules|
  {
    if n <= i + 1 then [] else Row(rules, i, n - 1) + Warning(rules, i, n - 1)
  }

  function Warning(rules: seq<TimeRule>, i: nat, j: nat): seq<Conflict>
    requires i < |rules| && j < |rules|
  {
    if Clash(rules[i], rules[j]) then [Conflict(Label(rules[i], i), Label(rules[j], j))] else []
  }

  function Table(rules: seq<TimeRule>, m: nat): seq<Conflict>
    requires m <= |rules|
  {
    if m == 0 then [] else Table(rules, m - 1) + Row(rules, m - 1, |rules|)
  }

  method KeepEnabled(timeRules: seq<TimeRule>) returns (rules: seq<TimeRule>)
    ensures rules == EnabledRules(timeRules)
  {
    rules := [];
    for i := 0 to |timeRules|
      invariant rules == EnabledRules(timeRules[..i])
    {
      assert timeRules[..i + 1][..i] == timeRules[..i];
      if !timeRules[i].disabled { rules := rules + [timeRules[i]]; }
    }
    assert timeRules[..|timeRules|] == timeRules;
  }

  lemma RowNext(rules: seq<TimeRule>, i: nat, j: nat)
    requires i < j < |rules|
    ensures Row(rules, i, j + 1) == Row(rules, i, j) + Warning(rules, i, j)
  {
  }

  /** The inner loop: the warnings about one rule and the later ones. */
  method RowConflicts(rules: seq<TimeRule>, i: nat) returns (row: seq<Conflict>)
    requires i < |rules|
    ensures row == Row(rules, i, |rules|)
  {
    hide Clash, Label, Row;
    row := [];
    assert row == Row(rules, i, i + 1) by { RowStarts(rules, i); }
    for j := i + 1 to |rules|
      invariant row == Row(rules, i, j)
    {
      RowNext(rules, i, j);
      if Clash(rules[i], rules[j]) {
        row := row + [Conflict(Label(rules[i], i), Label(rules[j], j))];
      }
    }
  }

  lemma RowStarts(rules: seq<TimeRule>, i: nat)
    requires i < |rules|
    ensures Row(rules, i, i + 1) == []
  {
  }

  method TimeRuleConflicts(k: KioskConfig) returns (out: seq<Conflict>)
    ensures out == Table(EnabledRules(k.timeRules), |EnabledRules(k.timeRules)|)
  {
    hide Clash, Label, EnabledRules;
    var rules := KeepEnabled(k.timeRules);
    out := [];
    for i := 0 to |rules|
      invariant out == Table(rules, i)
    {
      var row := RowConflicts(rules, i);
      out := out + row;
    }
  }

  ghost predicate Warns(rules: seq<TimeRule>, i: int, j: int, c: Conflict) {
    0 <= i < j < |rules| && c in Warning(rules, i, j)
  }

  lemma {:induction false} RowMembers(rules: seq<TimeRule>, i: nat, n: nat, c: Conflict)
    requires i < |rules| && n <= |rules|
    ensures c in Row(rules, i, n) <==> exists j :: j < n && Warns(rules, i, j, c)
  {
    hide Warning;
    if n > i + 1 {
      RowMembers(rules, i, n - 1, c);
      assert Warns(rules, i, n - 1, c) <==> c in Warning(rules, i, n - 1);
    }
  }

  lemma {:induction false} TableMembers(rules: seq<TimeRule>, m: nat, c: Conflict)
    requires m <= |rules|
    ensures c in Table(rules, m) <==> exists i, j :: i < m && Warns(rules, i, j, c)
  {
    WarnsBounds(rules, c);
    hide Warns, Row, Warning;
    if m > 0 {
      TableMembers(rules, m - 1, c);
      RowMembers(rules, m - 1, |rules|, c);
      assert c in Table(rules, m) <==> c in Table(rules, m - 1) || c in Row(rules, m - 1, |rules|);
    }
  }

  lemma WarnsBounds(rules: seq<TimeRule>, c: Conflict)
    ensures forall i, j :: Warns(rules, i, j, c) ==> 0 <= i < j < |rules|
  {
  }

  /** With well-formed rules the warnings name exactly the pairs of rules for
      different pages that the scheduler can find active at once. */
  lemma WarningsAreTheRealOverlaps(k: KioskConfig, c: Conflict)
    requires forall rule <- EnabledRules(k.timeRules) :: ValidClocks(rule) && Recognised(rule.days) && !Degenerate(rule)
    ensures var rules := EnabledRules(k.timeRules);
      c in Table(rules, |rules|) <==>
        exists i, j :: 0 <= i < j < |rules| && rules[i].page != rules[j].page && BothActive(k, rules[i], rules[j])
          && c == Conflict(Label(rules[i], i), Label(rules[j], j))
  {
    var rules := EnabledRules(k.timeRules);
    hide TimeRulesOverlap, BothActive, Table, Label, EnabledRules, Recognised, ValidClocks, Degenerate;
    TableMembers(rules, |rules|, c);
    EnabledRulesMembers(k.timeRules);
    forall i, j | 0 <= i < j < |rules|
      ensures Warns(rules, i, j, c) == (rules[i].page != rules[j].page && BothActive(k, rules[i], rules[j])
                                        && c == Conflict(Label(rules[i], i), Label(rules[j], j)))
    {
      assert rules[i] in rules && rules[j] in rules;
      OverlapExactly(k, rules[i], rules[j]);
    }
    WarnsBounds(rules, c);
    hide Warns;
  }

  lemma {:induction false} EnabledRulesMembers(rules: seq<TimeRule>)
    ensures forall rule <- EnabledRules(rules) :: rule in rules && !rule.disabled
  {
    if rules != [] { EnabledRulesMembers(rules[..|rules| - 1]); }
  }
}
