/** Which insert is on screen: now, until when, and over a stretch of time. */
module Programme {
  import opened Text
  import opened Config
  import opened Inserts

  /** Higher priority wins, equal priorities go to the insert listed first. */
  predicate Wins(a: InsertSlot, b: InsertSlot) {
    if a.insert.priority != b.insert.priority then a.insert.priority > b.insert.priority
    else a.index < b.index
  }

  /** Two runs of the same insert do not win over each other; the earlier stays. */
  predicate Outranks(a: InsertSlot, b: InsertSlot) {
    Wins(a, b) || (a.index == b.index && a.start < b.start)
  }

  ghost predicate Idle(k: KioskConfig, t: Time) {
    forall s :: IsRun(k, s) ==> !Running(s, t)
  }

  /** The pointwise meaning of the programme: s runs at t, and of all runs at t it
      has the highest priority, of those the first place in the list, and of one
      insert's own runs the earliest start. */
  ghost predicate OnScreen(k: KioskConfig, t: Time, s: InsertSlot) {
    && IsRun(k, s) && Running(s, t)
    && forall r :: IsRun(k, r) && Running(r, t) ==>
         && s.insert.priority >= r.insert.priority
         && (s.insert.priority == r.insert.priority ==> s.index <= r.index)
         && (s.index == r.index ==> s.start <= r.start)
  }

  lemma OnScreenUnique(k: KioskConfig, t: Time, a: InsertSlot, b: InsertSlot)
    requires OnScreen(k, t, a) && OnScreen(k, t, b)
    ensures a == b
  {
    hide StartsAt, Allows, Eligible, DayOf, MinuteOf, Duration;
  }

  /** Priority, place in the list and start rank any two runs, and the ranking is
      transitive. */
  lemma RankIsTotal(k: KioskConfig, a: InsertSlot, b: InsertSlot, c: InsertSlot)
    requires IsRun(k, a) && IsRun(k, b) && IsRun(k, c)
    ensures Outranks(a, b) <==>
      || a.insert.priority > b.insert.priority
      || (a.insert.priority == b.insert.priority && (a.index < b.index || (a.index == b.index && a.start < b.start)))
    ensures a != b ==> (Outranks(a, b) <==> !Outranks(b, a))
    ensures !Outranks(a, a)
    ensures Outranks(a, b) && Outranks(b, c) ==> Outranks(a, c)
  {
    hide StartsAt, Allows, Eligible, DayOf, MinuteOf, Duration;
  }

  /** The run on screen at t, if there is one. */
  ghost function ActiveAt(k: KioskConfig, t: Time): (best: Option<InsertSlot>)
    ensures best.Some? ==> OnScreen(k, t, best.value)
  {
    if exists s :: OnScreen(k, t, s) then
      var s :| OnScreen(k, t, s);
      Some(s)
    else None
  }

  /** The same runs are running at t and u. */
  ghost predicate SameRuns(k: KioskConfig, t: Time, u: Time) {
    forall s :: IsRun(k, s) ==> (Running(s, t) <==> Running(s, u))
  }

  ghost predicate SameScreen(k: KioskConfig, t: Time, u: Time) {
    && (Idle(k, t) <==> Idle(k, u))
    && forall s :: OnScreen(k, t, s) <==> OnScreen(k, u, s)
  }

  lemma SameRunsSameScreen(k: KioskConfig, t: Time, u: Time)
    requires SameRuns(k, t, u)
    ensures SameScreen(k, t, u)
  {
    hide IsRun;
    forall s ensures OnScreen(k, t, s) <==> OnScreen(k, u, s) {
      assert forall r :: IsRun(k, r) && Running(r, t) <==> IsRun(k, r) && Running(r, u);
    }
  }

  // ------------------------------------------------------------ picking one

  ghost predicate Coherent(slots: seq<InsertSlot>) {
    && InOrder(slots)
    && forall a <- slots, b <- slots :: a.index == b.index ==> a.insert == b.insert
  }

  ghost predicate Top(slots: seq<InsertSlot>, t: Time, best: Option<InsertSlot>) {
    match best
    case None => forall s <- slots :: !Running(s, t)
    case Some(b) =>
      && b in slots && Running(b, t)
      && forall r <- slots :: Running(r, t) ==>
           && b.insert.priority >= r.insert.priority
           && (b.insert.priority == r.insert.priority ==> b.index <= r.index)
           && (b.index == r.index ==> b.start <= r.start)
  }

  /** The selection loop shared by ActiveInsert and ProgramTimeline. */
  method BestRunning(slots: seq<InsertSlot>, t: Time) returns (best: Option<InsertSlot>)
    requires Coherent(slots)
    ensures Top(slots, t, best)
  {
    best := None;
    for i := 0 to |slots|
      invariant Top(slots[..i], t, best)
    {
      var slot := slots[i];
      assert slots[..i + 1] == slots[..i] + [slot];
      if Running(slot, t) {
        if best.None? || Wins(slot, best.value) {
          best := Some(slot);
        } else if best.value.index == slot.index {
          var j :| 0 <= j < i && slots[j] == best.value;
          assert Before(slots[j], slots[i]);
        }
      }
    }
    assert slots[..|slots|] == slots;
  }

  lemma ListsAreCoherent(k: KioskConfig, from: Time, to: Time, slots: seq<InsertSlot>)
    requires SlotList(k, from, to, slots)
    ensures Coherent(slots)
  {
  }

  /** The winner among the runs of a query is the one on screen. */
  lemma TopIsOnScreen(k: KioskConfig, from: Time, to: Time, slots: seq<InsertSlot>, t: Time, best: Option<InsertSlot>)
    requires SlotList(k, from, to, slots) && from <= t < to && Top(slots, t, best)
    ensures best.None? ==> Idle(k, t)
    ensures best.Some? ==> OnScreen(k, t, best.value)
  {
    hide IsRun;
    assert forall s :: IsRun(k, s) && Running(s, t) ==> s in slots;
  }

  method ActiveInsert(k: KioskConfig, now: Time) returns (best: Option<InsertSlot>)
    requires k.ClockBounded()
    ensures best.None? ==> Idle(k, now)
    ensures best.Some? ==> OnScreen(k, now, best.value)
    ensures best == ActiveAt(k, now)
    ensures best.None? ==> forall r :: IsRun(k, r) ==> !(r.start <= now < r.end)
    ensures best.Some? ==> IsRun(k, best.value) && best.value.start <= now < best.value.end
    ensures best.Some? ==> forall r :: IsRun(k, r) && r.start <= now < r.end ==>
      && best.value.insert.priority >= r.insert.priority
      && (best.value.insert.priority == r.insert.priority ==> best.value.index <= r.index)
      && (best.value.index == r.index ==> best.value.start <= r.start)
    ensures best.Some? ==> k.EnabledPageIndex(best.value.insert.pageID) >= 0
  {
    var slots := InsertSlots(k, now, now + SECOND);
    ListsAreCoherent(k, now, now + SECOND, slots);
    best := BestRunning(slots, now);
    TopIsOnScreen(k, now, now + SECOND, slots, now, best);
    if best.Some? && ActiveAt(k, now).Some? {
      OnScreenUnique(k, now, best.value, ActiveAt(k, now).value);
    }
  }

  // ----------------------------------------------------------- next change

  function Earlier(next: Option<Time>, at: Time, now: Time): Option<Time> {
    if at > now && (next.None? || at < next.value) then Some(at) else next
  }

  ghost predicate Boundary(slots: seq<InsertSlot>, at: Time) {
    exists s <- slots :: s.start == at || s.end == at
  }

  /** Some run of the configuration starts or ends at `at`. */
  ghost predicate IsEdge(k: KioskConfig, at: Time) {
    exists s :: IsRun(k, s) && (s.start == at || s.end == at)
  }

  /** next is the first boundary of these runs after now, if there is one. */
  ghost predicate FirstBoundary(slots: seq<InsertSlot>, now: Time, next: Option<Time>) {
    && (next.Some? ==> next.value > now && Boundary(slots, next.value))
    && forall s <- slots :: NotBefore(next, s.start, now) && NotBefore(next, s.end, now)
  }

  predicate NotBefore(next: Option<Time>, at: Time, now: Time) {
    at > now ==> next.Some? && next.value <= at
  }

  method NextInsertChange(k: KioskConfig, now: Time) returns (next: Option<Time>)
    requires k.ClockBounded()
    ensures next.Some? ==> next.value > now && IsEdge(k, next.value)
    ensures next.Some? ==> forall t :: now <= t < next.value ==> SameScreen(k, now, t)
    ensures next.None? ==> forall t :: now <= t < now + 48 * HOUR ==> Idle(k, t)
    ensures AwakeInTime(k, now, next)
  {
    var slots := InsertSlots(k, now, now + 48 * HOUR);
    next := None;
    for i := 0 to |slots|
      invariant FirstBoundary(slots[..i], now, next)
    {
      assert slots[..i + 1] == slots[..i] + [slots[i]];
      next := Earlier(next, slots[i].start, now);
      next := Earlier(next, slots[i].end, now);
    }
    assert slots[..|slots|] == slots;
    FirstBoundaryIsNextChange(k, now, slots, next);
    forall t | next.None? && now <= t < now + 48 * HOUR ensures SameScreen(k, now, t) {
      assert Idle(k, now) && Idle(k, t);
    }
  }

  /** Sleeping until `next`, or for 48 hours, misses no change of the screen. */
  ghost predicate AwakeInTime(k: KioskConfig, now: Time, next: Option<Time>) {
    forall t :: now <= t < now + 48 * HOUR && (next.Some? ==> t < next.value) ==> SameScreen(k, now, t)
  }

  lemma FirstBoundaryIsNextChange(k: KioskConfig, now: Time, slots: seq<InsertSlot>, next: Option<Time>)
    requires SlotList(k, now, now + 48 * HOUR, slots) && FirstBoundary(slots, now, next)
    ensures next.Some? ==> IsEdge(k, next.value)
    ensures next.Some? ==> forall t :: now <= t < next.value ==> SameScreen(k, now, t)
    ensures next.None? ==> forall t :: now <= t < now + 48 * HOUR ==> Idle(k, t)
  {
    if next.Some? {
      var s :| s in slots && (s.start == next.value || s.end == next.value);
      SoonerThanHorizon(k, now, slots, next.value, s);
      forall t | now <= t < next.value ensures SameScreen(k, now, t) {
        SameUntilNext(k, now, slots, next.value, t);
      }
    } else {
      NothingAhead(k, now, slots);
    }
    hide SameScreen, Idle;
  }

  lemma SameUntilNext(k: KioskConfig, now: Time, slots: seq<InsertSlot>, next: Time, t: Time)
    requires SlotList(k, now, now + 48 * HOUR, slots) && FirstBoundary(slots, now, Some(next))
    requires now <= t < next < now + 48 * HOUR
    ensures SameScreen(k, now, t)
  {
    forall r | IsRun(k, r) ensures Running(r, now) <==> Running(r, t) {
      assert (Running(r, now) || Running(r, t)) ==> r in slots;
      assert r in slots ==> NotBefore(Some(next), r.start, now) && NotBefore(Some(next), r.end, now);
      hide IsRun;
    }
    SameRunsSameScreen(k, now, t);
    hide SameScreen;
  }

  lemma NothingAhead(k: KioskConfig, now: Time, slots: seq<InsertSlot>)
    requires SlotList(k, now, now + 48 * HOUR, slots) && FirstBoundary(slots, now, None)
    ensures forall t :: now <= t < now + 48 * HOUR ==> Idle(k, t)
  {
    hide IsRun;
    forall t, r | now <= t < now + 48 * HOUR && IsRun(k, r) ensures !Running(r, t) {
      assert Running(r, t) ==> r in slots;
      assert r in slots ==> NotBefore(None, r.end, now);
    }
  }

  /** The first change lies inside the 48 hours looked at. */
  lemma SoonerThanHorizon(k: KioskConfig, now: Time, slots: seq<InsertSlot>, next: Time, s: InsertSlot)
    requires SlotList(k, now, now + 48 * HOUR, slots) && FirstBoundary(slots, now, Some(next))
    requires s in slots && (s.start == next || s.end == next)
    ensures next < now + 48 * HOUR
  {
    assert s.end - s.start <= HOUR && Overlaps(s, now, now + 48 * HOUR);
    assert NotBefore(Some(next), s.start, now);
  }

  // -------------------------------------------------------------- timeline

  function Base(start: Time, end: Time): ProgramSegment {
    ProgramSegment(start, end, "", "", "", 0)
  }

  function SegmentFor(start: Time, end: Time, best: Option<InsertSlot>): ProgramSegment {
    match best
    case None => Base(start, end)
    case Some(b) => ProgramSegment(start, end, b.insert.id, b.insert.name, b.insert.pageID, b.insert.priority)
  }

  /** The segment carries the ID of the insert on screen at t, or none. */
  ghost predicate ShowsID(k: KioskConfig, t: Time, segment: ProgramSegment) {
    || (Idle(k, t) && segment.insertID == "")
    || exists s :: OnScreen(k, t, s) && segment.insertID == s.insert.id
  }

  /** All labels of the segment are those of the insert on screen at t. */
  ghost predicate Shows(k: KioskConfig, t: Time, segment: ProgramSegment) {
    || (Idle(k, t) && segment == Base(segment.start, segment.end))
    || exists s :: OnScreen(k, t, s) && segment == SegmentFor(segment.start, segment.end, Some(s))
  }

  /** What validateInserts enforces of insert IDs. */
  ghost predicate ValidIDs(k: KioskConfig) {
    && (forall p <- k.inserts :: p.id != "")
    && forall i, j :: 0 <= i < j < |k.inserts| ==> k.inserts[i].id != k.inserts[j].id
  }

  /** Non-empty segments that follow each other without gaps from a to b. */
  ghost predicate Partition(out: seq<ProgramSegment>, a: Time, b: Time) {
    && out != [] && out[0].start == a && out[|out| - 1].end == b
    && (forall i :: 0 <= i < |out| ==> out[i].start < out[i].end)
    && forall i :: 0 <= i < |out| - 1 ==> out[i].end == out[i + 1].start
  }

  ghost predicate NeighboursDiffer(out: seq<ProgramSegment>) {
    forall i :: 0 <= i < |out| - 1 ==> out[i].insertID != out[i + 1].insertID
  }

  ghost predicate Faithful(k: KioskConfig, out: seq<ProgramSegment>) {
    forall i :: 0 <= i < |out| ==> FaithfulTo(k, out[i])
  }

  ghost predicate FaithfulTo(k: KioskConfig, segment: ProgramSegment) {
    && Labelled(k, segment)
    && forall t :: segment.start <= t < segment.end ==>
         ShowsID(k, t, segment) && (ValidIDs(k) ==> Shows(k, t, segment))
  }

  /** The labels are those of the base programme or of a configured insert. */
  ghost predicate Labelled(k: KioskConfig, segment: ProgramSegment) {
    || segment == Base(segment.start, segment.end)
    || exists p <- k.inserts :: segment ==
         ProgramSegment(segment.start, segment.end, p.id, p.name, p.pageID, p.priority)
  }

  ghost predicate Cuts(slots: seq<InsertSlot>, from: Time, to: Time, cuts: seq<Time>) {
    && Increasing(cuts) && |cuts| >= 2 && cuts[0] == from && cuts[|cuts| - 1] == to
    && EdgesIn(slots, from, to, cuts)
  }

  ghost predicate EdgesIn(slots: seq<InsertSlot>, from: Time, to: Time, cuts: seq<Time>) {
    forall s <- slots :: (from < s.start < to ==> s.start in cuts) && (from < s.end < to ==> s.end in cuts)
  }

  /** The ends of the range and every start and end of a run inside it, sorted
      and without repeats. */
  method CutTimes(slots: seq<InsertSlot>, from: Time, to: Time) returns (cuts: seq<Time>)
    ensures from < to ==> Cuts(slots, from, to, cuts)
    ensures from == to ==> cuts == [from]
    ensures to < from ==> cuts == [to, from]
    ensures Increasing(cuts)
  {
    cuts := [from, to];
    for i := 0 to |slots|
      invariant from in cuts && to in cuts
      invariant forall c <- cuts :: c == from || c == to || from < c < to
      invariant EdgesIn(slots[..i], from, to, cuts)
    {
      assert slots[..i + 1] == slots[..i] + [slots[i]];
      if from < slots[i].start < to { cuts := cuts + [slots[i].start]; }
      if from < slots[i].end < to { cuts := cuts + [slots[i].end]; }
    }
    assert slots[..|slots|] == slots;
    cuts := Compact(SortInts(cuts));
    CutEnds(from, to, cuts);
  }

  /** The segment carries the labels of the run at t with the highest priority,
      among equals the first listed, or of none. */
  ghost predicate ShowsBest(k: KioskConfig, t: Time, segment: ProgramSegment) {
    || (segment.insertID == "" && (ValidIDs(k) ==> segment.name == "" && segment.pageID == "" && segment.priority == 0)
        && forall r :: IsRun(k, r) ==> !(r.start <= t < r.end))
    || exists s :: IsRun(k, s) && s.start <= t < s.end && segment.insertID == s.insert.id
         && (ValidIDs(k) ==> segment.name == s.insert.name && segment.pageID == s.insert.pageID && segment.priority == s.insert.priority)
         && forall r :: IsRun(k, r) && r.start <= t < r.end ==>
              && s.insert.priority >= r.insert.priority
              && (s.insert.priority == r.insert.priority ==> s.index <= r.index)
              && (s.index == r.index ==> s.start <= r.start)
  }

  /** The timeline is a gap-free partition of [from, to) whose labels agree with
      ActiveInsert at every instant. Nothing is asked of from and to: an empty
      range gives no segment, a reversed one gives a single base segment. */
  method ProgramTimeline(k: KioskConfig, from: Time, to: Time) returns (out: seq<ProgramSegment>)
    requires k.ClockBounded()
    ensures from < to ==> Partition(out, from, to) && NeighboursDiffer(out) && Faithful(k, out)
    ensures from < to ==> forall i, t :: 0 <= i < |out| && out[i].start <= t < out[i].end ==> ShowsBest(k, t, out[i])
    ensures from == to ==> out == []
    ensures to < from ==> out == [ProgramSegment(to, from, "", "", "", 0)]
  {
    var slots := InsertSlots(k, from, to);
    if from < to { ListsAreCoherent(k, from, to, slots); }
    hide SlotList, Coherent, FaithfulTo;
    var cuts := CutTimes(slots, from, to);
    hide Cuts;
    out := [];
    var i := 0;
    while i + 1 < |cuts|
      invariant 0 <= i < |cuts|
      invariant Built(k, cuts, i, from < to, out)
      invariant to < from && i > 0 ==> out == [Base(to, from)]
    {
      hide Built;
      var start, end := cuts[i], cuts[i + 1];
      var best := BestRunning(slots, start);
      var segment := SegmentFor(start, end, best);
      ghost var before := out;
      if from < to { CutShows(k, from, to, slots, cuts, i, best); }
      var n := |out|;
      if n > 0 && out[n - 1].insertID == segment.insertID && out[n - 1].end == start {
        out := out[..n - 1] + [out[n - 1].(end := end)];
      } else {
        out := out + [segment];
      }
      BuildStep(k, cuts, i, from < to, before, segment);
      i := i + 1;
    }
    forall i, t | from < to && 0 <= i < |out| && out[i].start <= t < out[i].end ensures ShowsBest(k, t, out[i]) {
      FaithfulShowsBest(k, t, out[i]);
    }
    hide IsRun, Faithful, NeighboursDiffer, Partition;
  }

  lemma FaithfulShowsBest(k: KioskConfig, t: Time, segment: ProgramSegment)
    requires FaithfulTo(k, segment) && segment.start <= t < segment.end
    ensures ShowsBest(k, t, segment)
  {
    assert ShowsID(k, t, segment) && (ValidIDs(k) ==> Shows(k, t, segment));
    hide IsRun;
  }

  /** What the sweep has produced up to cut i. */
  ghost predicate Built(k: KioskConfig, cuts: seq<Time>, i: nat, forward: bool, out: seq<ProgramSegment>)
    requires i < |cuts|
  {
    && (i == 0 ==> out == [])
    && (i > 0 ==> Partition(out, cuts[0], cuts[i]) && NeighboursDiffer(out))
    && (forward ==> Faithful(k, out))
  }

  lemma BuildStep(k: KioskConfig, cuts: seq<Time>, i: nat, forward: bool, out: seq<ProgramSegment>, segment: ProgramSegment)
    requires i + 1 < |cuts| && cuts[i] < cuts[i + 1] && Built(k, cuts, i, forward, out)
    requires segment.start == cuts[i] && segment.end == cuts[i + 1]
    requires forward ==> FaithfulTo(k, segment)
    ensures var n := |out|;
      Built(k, cuts, i + 1, forward,
        if n > 0 && out[n - 1].insertID == segment.insertID && out[n - 1].end == segment.start
        then out[..n - 1] + [out[n - 1].(end := segment.end)] else out + [segment])
  {
    hide FaithfulTo;
    var n := |out|;
    if n > 0 && forward && out[n - 1].insertID == segment.insertID && out[n - 1].end == segment.start {
      MergeShows(k, out[n - 1], segment);
    }
  }

  lemma CutEnds(from: Time, to: Time, cuts: seq<Time>)
    requires Increasing(cuts) && from in cuts && to in cuts
    requires forall c <- cuts :: c == from || c == to || from < c < to
    ensures from < to ==> |cuts| >= 2 && cuts[0] == from && cuts[|cuts| - 1] == to
    ensures from == to ==> cuts == [from]
    ensures to < from ==> cuts == [to, from]
  {
    assert forall i :: 0 <= i < |cuts| ==> cuts[i] in cuts;
    assert |cuts| > 2 ==> cuts[0] < cuts[1] < cuts[2] && cuts[1] in cuts && cuts[2] in cuts;
  }

  /** Between two neighbouring cuts nothing starts or ends, so the winner at the
      first cut is on screen up to the second. */
  lemma CutShows(k: KioskConfig, from: Time, to: Time, slots: seq<InsertSlot>, cuts: seq<Time>, i: nat, best: Option<InsertSlot>)
    requires SlotList(k, from, to, slots) && Cuts(slots, from, to, cuts) && i + 1 < |cuts|
    requires Top(slots, cuts[i], best)
    ensures var segment := SegmentFor(cuts[i], cuts[i + 1], best);
      FaithfulTo(k, segment)
  {
    var segment := SegmentFor(cuts[i], cuts[i + 1], best);
    TopIsOnScreen(k, from, to, slots, cuts[i], best);
    if best.Some? { InsertOf(k, cuts[i], best.value); }
    hide IsRun, Idle, OnScreen, SlotList, Cuts, Top;
    forall t | cuts[i] <= t < cuts[i + 1] ensures ShowsID(k, t, segment) && Shows(k, t, segment) {
      SameBetweenCuts(k, from, to, slots, cuts, i, t);
      if best.Some? { assert OnScreen(k, t, best.value); }
    }
  }

  lemma SameBetweenCuts(k: KioskConfig, from: Time, to: Time, slots: seq<InsertSlot>, cuts: seq<Time>, i: nat, t: Time)
    requires SlotList(k, from, to, slots) && Cuts(slots, from, to, cuts) && i + 1 < |cuts|
    requires cuts[i] <= t < cuts[i + 1]
    ensures SameScreen(k, cuts[i], t)
  {
    forall r | IsRun(k, r) ensures Running(r, cuts[i]) <==> Running(r, t) {
      NoEdgeBetween(k, from, to, slots, cuts, i, t, r);
    }
    SameRunsSameScreen(k, cuts[i], t);
  }

  lemma InsertOf(k: KioskConfig, t: Time, s: InsertSlot)
    requires OnScreen(k, t, s)
    ensures s.insert in k.inserts
  {
  }

  lemma NoEdgeBetween(k: KioskConfig, from: Time, to: Time, slots: seq<InsertSlot>, cuts: seq<Time>, i: nat, t: Time, r: InsertSlot)
    requires SlotList(k, from, to, slots) && Cuts(slots, from, to, cuts) && i + 1 < |cuts|
    requires cuts[i] <= t < cuts[i + 1] && IsRun(k, r)
    ensures Running(r, cuts[i]) <==> Running(r, t)
  {
    hide IsRun;
    if !(Running(r, cuts[i]) <==> Running(r, t)) {
      assert r in slots;
      var at := if cuts[i] < r.start <= t then r.start else r.end;
      assert at in cuts;
      var j :| 0 <= j < |cuts| && cuts[j] == at;
      assert false;
    }
  }

  /** Valid IDs decide all labels, so merging by ID alone loses nothing. */
  lemma MergeShows(k: KioskConfig, a: ProgramSegment, b: ProgramSegment)
    requires FaithfulTo(k, a) && FaithfulTo(k, b) && a.insertID == b.insertID && a.end == b.start
    ensures FaithfulTo(k, a.(end := b.end))
  {
    hide IsRun, OnScreen, Idle;
    var m := a.(end := b.end);
    forall t | m.start <= t < m.end ensures ShowsID(k, t, m) && (ValidIDs(k) ==> Shows(k, t, m)) {
      if t < a.end {
        assert ShowsID(k, t, a);
      } else {
        assert ShowsID(k, t, b);
      }
    }
  }
}
