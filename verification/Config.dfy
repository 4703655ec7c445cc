/** The kiosk configuration: pages, schedules and page inserts. */
module Config {
  import opened Text

  /** Instants and durations are integer nanoseconds; days are uniform. */
  type Time = int

  const SECOND: int := 1_000_000_000
  const MINUTE: int := 60 * SECOND
  const HOUR: int := 60 * MINUTE
  const DAY: int := 24 * HOUR

  // Texts the program compares with a few fixed values, one constructor a value.
  datatype DisplayMode = ByDuration | BySchedule | OtherDisplay(name: string)
  datatype Repeat = Interval | Hourly | Times | OtherRepeat(name: string)
  datatype Mode = Unset | RotationMode | TimeMode | HybridMode | OverrideMode | OtherMode(name: string)

  datatype KioskPage = KioskPage(
    pageID: string, name: string, url: string, displayMode: DisplayMode,
    durationSeconds: int, powerOffAfter: bool, preload: bool, disabled: bool, local: bool)

  datatype RotationItem = RotationItem(page: int, durationSeconds: int)

  datatype TimeRule = TimeRule(
    name: string, page: int, start: string, end: string, days: seq<string>, disabled: bool)

  datatype PageInsert = PageInsert(
    id: string, name: string, pageID: string, repeat: Repeat, everyMinutes: int, minute: int,
    times: seq<string>, durationSeconds: int, start: string, end: string, days: seq<string>,
    priority: int, disabled: bool, condition: Option<InsertCondition>)

  /** The last message on `topic` equals `value`, or differs from it. */
  datatype InsertCondition = InsertCondition(topic: string, value: string, negate: bool)

  /** `require` is the presence mode that blanks the display when nobody is there. */
  datatype Presence = Presence(enabled: bool, require: bool, timeoutMinutes: int) {
    function Timeout(): Time {
      if timeoutMinutes <= 0 then 5 * MINUTE else timeoutMinutes * MINUTE
    }
  }

  // A `local` page is rendered by the program itself and has a derived address.

  /** `tabMode` is page_switch "tabs", `lowPower` a low-power profile, and
      `resolve` stands for ResolveClock: the minute of the day a clock text or
      sun time means on a given day. */
  datatype KioskConfig = KioskConfig(
    pages: seq<KioskPage>, urls: seq<string>, inserts: seq<PageInsert>,
    rotation: seq<RotationItem>, timeRules: seq<TimeRule>,
    schedulerEnabled: bool, schedulerMode: Mode, presence: Presence,
    tabMode: bool, isolateSessions: bool, maxTabs: int, lowPower: bool,
    resolve: (string, int) -> Option<int>)
  {
    /** ResolveClock clamps every minute it returns into the day. */
    ghost predicate ClockBounded() {
      forall clock: string, day: int :: resolve(clock, day).Some? ==> 0 <= resolve(clock, day).value < 1440
    }

    /** The URLs of the enabled pages, or the plain list when there are none. */
    function PageURLs(): seq<string> {
      if Enabled(pages) != [] then PageTexts(Enabled(pages)) else NonBlank(urls)
    }

    function PageCount(): nat {
      |PageURLs()|
    }

    /** The address shown for a page index; an unknown index means the first page. */
    function ActiveURL(active: int): string {
      if PageURLs() == [] then "about:blank"
      else if 0 <= active < |PageURLs()| then PageURLs()[active]
      else PageURLs()[0]
    }

    function EnabledPageIndex(id: string): int {
      if TrimSpace(id) == "" then -1 else FirstWithID(Enabled(pages), TrimSpace(id))
    }

    function PreloadIndexes(): set<int> {
      set i | 0 <= i < |Enabled(pages)| && Enabled(pages)[i].preload
    }
  }

  predicate IsEnabled(page: KioskPage) {
    !page.disabled && !Blank(page.url)
  }

  function Enabled(pages: seq<KioskPage>): (r: seq<KioskPage>)
    ensures forall page :: page in r <==> page in pages && IsEnabled(page)
    ensures |r| <= |pages|
  {
    if pages == [] then []
    else if IsEnabled(pages[0]) then [pages[0]] + Enabled(pages[1..])
    else Enabled(pages[1..])
  }

  lemma {:induction false} EnabledConcat(a: seq<KioskPage>, b: seq<KioskPage>)
    ensures Enabled(a + b) == Enabled(a) + Enabled(b)
  {
    if a == [] {
      assert a + b == b;
    } else {
      assert (a + b)[1..] == a[1..] + b;
      EnabledConcat(a[1..], b);
    }
  }

  function PageTexts(pages: seq<KioskPage>): seq<string> {
    seq(|pages|, i requires 0 <= i < |pages| => TrimSpace(pages[i].url))
  }

  function NonBlank(urls: seq<string>): seq<string> {
    if urls == [] then []
    else (if Blank(urls[0]) then [] else [TrimSpace(urls[0])]) + NonBlank(urls[1..])
  }

  function FirstWithID(pages: seq<KioskPage>, id: string): (r: int)
    ensures -1 <= r < |pages|
    ensures r >= 0 ==> pages[r].pageID == id && forall i :: 0 <= i < r ==> pages[i].pageID != id
    ensures r < 0 ==> forall page <- pages :: page.pageID != id
  {
    if pages == [] then -1
    else if pages[0].pageID == id then 0
    else
      var r := FirstWithID(pages[1..], id);
      if r < 0 then -1 else r + 1
  }

  function ClampPage(page: int, count: int): (r: int)
    ensures count > 0 ==> 0 <= r < count && (0 <= page < count ==> r == page)
    ensures count > 0 ==> (page < 0 ==> r == 0) && (page >= count ==> r == count - 1)
    ensures count <= 0 ==> r == -1
  {
    if count <= 0 then -1
    else if page < 0 then 0
    else if page >= count then count - 1
    else page
  }

  // ------------------------------------------------------------------ days

  const WEEKDAYS: seq<string> :=
    ["sunday", "monday", "tuesday", "wednesday", "thursday", "friday", "saturday"]

  function DayOf(t: Time): int { t / DAY }

  /** Minute of the day, rounded down. */
  function MinuteOf(t: Time): (m: int)
    ensures 0 <= m < 1440
  {
    (t % DAY) / MINUTE
  }

  function At(day: int, minute: int): Time { day * DAY + minute * MINUTE }

  /** Day 0 is a Thursday. */
  function Weekday(day: int): (w: nat)
    ensures w < 7
  {
    (day + 4) % 7
  }

  function Long(weekday: nat): (s: string)
    requires weekday < 7
    ensures |s| >= 6
  {
    WEEKDAYS[weekday]
  }

  /** An empty day list means every day; names count in full or by three letters. */
  predicate WeekdayMatches(days: seq<string>, weekday: nat)
    requires weekday < 7
  {
    days == [] || exists day <- days :: NamesDay(day, weekday)
  }

  predicate NamesDay(day: string, weekday: nat)
    requires weekday < 7
  {
    var d := Lower(TrimSpace(day));
    d == Long(weekday)[..3] || d == Long(weekday)
  }

  function ShortName(w: nat): string
    requires w < 7
  {
    ["Sun", "Mon", "Tue", "Wed", "Thu", "Fri", "Sat"][w]
  }

  /** 4 January 1970, which is day 3, was a Sunday: each three-letter name denotes
      every seventh day from its own in that week on. */
  lemma DaysByName(day: int, w: nat)
    requires w < 7
    ensures NamesDay(["Sun", "Mon", "Tue", "Wed", "Thu", "Fri", "Sat"][w], Weekday(day)) <==> (day - 3 - w) % 7 == 0
  {
    hide NamesDay;
    NamesOneDay(w, Weekday(day));
  }

  lemma NamesOneDay(w: nat, v: nat)
    requires w < 7 && v < 7
    ensures NamesDay(ShortName(w), v) <==> v == w
  {
    ShortNames(w);
    ShortNames(v);
    FirstLetters(w, v);
    hide Lower, TrimSpace, Long, ShortName;
  }

  lemma ShortNames(w: nat)
    requires w < 7
    ensures TrimSpace(ShortName(w)) == ShortName(w) && |ShortName(w)| == 3 && Lower(ShortName(w)) == Long(w)[..3]
  {
    hide TrimSpace;
    var name := ShortName(w);
    assert !IsSpace(name[0]) && !IsSpace(name[2]);
    AlreadyTrimmed(name);
    hide IsSpace;
  }

  lemma FirstLetters(v: nat, w: nat)
    requires v < 7 && w < 7
    ensures Long(v)[..3] == Long(w)[..3] ==> v == w
  {
    assert Long(0)[..3] == "sun" && Long(1)[..3] == "mon" && Long(2)[..3] == "tue" && Long(3)[..3] == "wed";
    assert Long(4)[..3] == "thu" && Long(5)[..3] == "fri" && Long(6)[..3] == "sat";
  }

  lemma MinuteBounds(t: Time)
    ensures At(DayOf(t), MinuteOf(t)) <= t < At(DayOf(t), MinuteOf(t) + 1)
  {
    assert t == DayOf(t) * DAY + t % DAY;
  }

  lemma AtParts(day: int, minute: int)
    requires 0 <= minute < 1440
    ensures DayOf(At(day, minute)) == day && MinuteOf(At(day, minute)) == minute
  {
    var t := At(day, minute);
    assert 0 <= minute * MINUTE < DAY;
    assert t / DAY == day;
    assert t % DAY == minute * MINUTE;
  }
}
