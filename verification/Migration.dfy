/** Turning a legacy configuration, in which the rotation refers to a separate
    page list, into one page per rotation position. */
module Migration {
  import opened Text
  import opened Config

  /** The parts of the kiosk configuration that are rebuilt. */
  datatype Sequence = Sequence(pages: seq<KioskPage>, rotation: seq<RotationItem>, timeRules: seq<TimeRule>)

  predicate NeedsMigration(q: Sequence) {
    var enabled := Enabled(q.pages);
    && q.rotation != [] && enabled != []
    && (forall page <- q.pages :: page.pageID == "")
    && (forall item <- q.rotation :: 0 <= item.page < |enabled|)
    && !Canonical(q.rotation, |enabled|)
  }

  predicate Canonical(rotation: seq<RotationItem>, count: nat) {
    |rotation| == count && forall i :: 0 <= i < |rotation| ==> rotation[i].page == i
  }

  predicate References(rotation: seq<RotationItem>, index: int) {
    exists item <- rotation :: item.page == index
  }

  /** One page per rotation position, with that position's duration. */
  function Shown(rotation: seq<RotationItem>, enabled: seq<KioskPage>): (r: seq<KioskPage>)
    requires forall item <- rotation :: 0 <= item.page < |enabled|
    ensures |r| == |rotation|
  {
    seq(|rotation|, i requires 0 <= i < |rotation| =>
      assert rotation[i] in rotation;
      enabled[rotation[i].page].(durationSeconds := rotation[i].durationSeconds))
  }

  /** Enabled pages below index n that the rotation never shows, in order. */
  function Unshown(rotation: seq<RotationItem>, enabled: seq<KioskPage>, n: nat): seq<KioskPage>
    requires n <= |enabled|
  {
    if n == 0 then []
    else Unshown(rotation, enabled, n - 1) + if References(rotation, n - 1) then [] else [enabled[n - 1]]
  }

  function Hidden(pages: seq<KioskPage>): seq<KioskPage> {
    if pages == [] then []
    else (if IsEnabled(pages[0]) then [] else [pages[0]]) + Hidden(pages[1..])
  }

  function FirstUse(rotation: seq<RotationItem>, index: int): (r: nat)
    requires References(rotation, index)
    ensures r < |rotation| && rotation[r].page == index
    ensures forall i :: 0 <= i < r ==> rotation[i].page != index
  {
    if rotation[0].page == index then 0 else FirstUse(rotation[1..], index) + 1
  }

  /** Where enabled page `index` is found afterwards. */
  function NewIndex(rotation: seq<RotationItem>, enabled: seq<KioskPage>, index: nat): nat
    requires index < |enabled|
  {
    if References(rotation, index) then FirstUse(rotation, index)
    else |rotation| + |Unshown(rotation, enabled, index)|
  }

  function Positive(seconds: int): int { if seconds <= 0 then 3600 else seconds }

  function Moved(rule: TimeRule, q: Sequence): TimeRule {
    var enabled := Enabled(q.pages);
    if 0 <= rule.page < |enabled| then rule.(page := NewIndex(q.rotation, enabled, rule.page)) else rule
  }

  function Migrated(q: Sequence): Sequence {
    if !NeedsMigration(q) then q
    else
      var enabled := Enabled(q.pages);
      Sequence(
        Shown(q.rotation, enabled) + Unshown(q.rotation, enabled, |enabled|) + Hidden(q.pages),
        seq(|q.rotation|, i requires 0 <= i < |q.rotation| => RotationItem(i, Positive(q.rotation[i].durationSeconds))),
        seq(|q.timeRules|, i requires 0 <= i < |q.timeRules| => Moved(q.timeRules[i], q)))
  }

  class Kiosk {
    var pages: seq<KioskPage>
    var rotation: seq<RotationItem>
    var timeRules: seq<TimeRule>

    function Now(): Sequence
      reads this
    {
      Sequence(pages, rotation, timeRules)
    }

    /** The checks that leave a configuration as it is. */
    method Applies() returns (applies: bool)
      ensures applies == NeedsMigration(Now())
      ensures applies <==>
        && rotation != [] && (exists page <- pages :: !page.disabled && TrimSpace(page.url) != "")
        && (forall page <- pages :: page.pageID == "")
        && (forall item <- rotation :: 0 <= item.page < |Enabled(pages)|)
        && (|rotation| != |Enabled(pages)| || exists i :: 0 <= i < |rotation| && rotation[i].page != i)
    {
      SomeEnabled(pages);
      hide TrimSpace, IsEnabled;
      if rotation == [] || pages == [] { return false; }
      for i := 0 to |pages|
        invariant forall j :: 0 <= j < i ==> pages[j].pageID == ""
      {
        if pages[i].pageID != "" { return false; }
      }
      var enabled := Enabled(pages);
      if enabled == [] { return false; }
      var canonical := |rotation| == |enabled|;
      for i := 0 to |rotation|
        invariant forall j :: 0 <= j < i ==> 0 <= rotation[j].page < |enabled|
        invariant canonical <==> |rotation| == |enabled| && forall j :: 0 <= j < i ==> rotation[j].page == j
      {
        if rotation[i].page < 0 || rotation[i].page >= |enabled| { return false; }
        if rotation[i].page != i { canonical := false; }
      }
      return !canonical;
    }

    method MigrateLegacySequence()
      modifies this
      ensures Now() == Migrated(old(Now()))
    {
      hide TrimSpace, IsEnabled, Enabled, NeedsMigration;
      var applies := Applies();
      if !applies { return; }
      Needs(Now());
      var enabled := Enabled(pages);
      var sequence, firstIndex := Rebuild(pages, rotation, enabled);
      var moved := MoveRules(timeRules, firstIndex);
      var items := NumberItems(sequence[..|rotation|]);
      hide Enabled, Shown, Unshown, Hidden, NewIndex;
      pages, rotation, timeRules := sequence, items, moved;
    }
  }

  lemma SomeEnabled(pages: seq<KioskPage>)
    ensures Enabled(pages) != [] <==> exists page <- pages :: !page.disabled && TrimSpace(page.url) != ""
  {
    if Enabled(pages) != [] { assert Enabled(pages)[0] in Enabled(pages); }
    hide TrimSpace;
  }

  method MoveRules(timeRules: seq<TimeRule>, firstIndex: map<int, int>) returns (moved: seq<TimeRule>)
    ensures |moved| == |timeRules|
    ensures forall i :: 0 <= i < |moved| ==> var rule := timeRules[i];
      moved[i] == if rule.page in firstIndex then rule.(page := firstIndex[rule.page]) else rule
  {
    moved := timeRules;
    for i := 0 to |timeRules|
      invariant |moved| == |timeRules| && moved[i..] == timeRules[i..]
      invariant forall j :: 0 <= j < i ==> var rule := timeRules[j];
        moved[j] == if rule.page in firstIndex then rule.(page := firstIndex[rule.page]) else rule
    {
      assert moved[i] == moved[i..][0] == timeRules[i];
      if moved[i].page in firstIndex { moved := moved[i := moved[i].(page := firstIndex[moved[i].page])]; }
      assert moved[i + 1..] == timeRules[i..][1..];
    }
  }

  method NumberItems(shown: seq<KioskPage>) returns (items: seq<RotationItem>)
    ensures |items| == |shown|
    ensures forall i :: 0 <= i < |items| ==> items[i] == RotationItem(i, Positive(shown[i].durationSeconds))
  {
    items := [];
    for i := 0 to |shown|
      invariant |items| == i
      invariant forall j :: 0 <= j < i ==> items[j] == RotationItem(j, Positive(shown[j].durationSeconds))
    {
      var duration := shown[i].durationSeconds;
      if duration <= 0 { duration := 3600; }
      items := items + [RotationItem(i, duration)];
    }
  }

  /** The first two loops lay out the enabled pages and note where each old page
      is first found; the third appends the others. */
  method Rebuild(pages: seq<KioskPage>, rotation: seq<RotationItem>, enabled: seq<KioskPage>)
    returns (sequence: seq<KioskPage>, firstIndex: map<int, int>)
    requires forall item <- rotation :: 0 <= item.page < |enabled|
    ensures sequence == Shown(rotation, enabled) + Unshown(rotation, enabled, |enabled|) + Hidden(pages)
    ensures forall j :: j in firstIndex <==> 0 <= j < |enabled|
    ensures forall j :: j in firstIndex ==> firstIndex[j] == NewIndex(rotation, enabled, j)
  {
    hide Shown, Unshown, Hidden, References, FirstUse, NewIndex;
    var referenced;
    sequence, firstIndex, referenced := LayShown(rotation, enabled);
    sequence, firstIndex := LayUnshown(rotation, enabled, sequence, firstIndex, referenced);
    sequence := LayHidden(pages, sequence);
  }

  method LayShown(rotation: seq<RotationItem>, enabled: seq<KioskPage>)
    returns (sequence: seq<KioskPage>, firstIndex: map<int, int>, referenced: set<int>)
    requires forall item <- rotation :: 0 <= item.page < |enabled|
    ensures sequence == Shown(rotation, enabled)
    ensures forall j :: j in referenced <==> References(rotation, j)
    ensures Placed(firstIndex, rotation, enabled, 0)
  {
    sequence, firstIndex, referenced := [], map[], {};
    ghost var shown := Shown(rotation, enabled);
    assert Noted(firstIndex, referenced, rotation, 0);
    hide Noted;
    for i := 0 to |rotation|
      invariant sequence == shown[..i]
      invariant Noted(firstIndex, referenced, rotation, i)
    {
      var item := rotation[i];
      assert item in rotation;
      NoteOne(firstIndex, referenced, rotation, i);
      if item.page !in firstIndex { firstIndex := firstIndex[item.page := |sequence|]; }
      referenced := referenced + {item.page};
      sequence := sequence + [enabled[item.page].(durationSeconds := item.durationSeconds)];
    }
    AllNoted(firstIndex, referenced, rotation, enabled);
  }

  /** The pages among the first n rotation items, and where each is first. */
  ghost predicate Noted(firstIndex: map<int, int>, referenced: set<int>, rotation: seq<RotationItem>, n: nat)
    requires n <= |rotation|
  {
    && firstIndex.Keys == referenced
    && (forall j :: j in referenced <==> exists u :: 0 <= u < n && rotation[u].page == j)
    && (forall j :: j in firstIndex ==> References(rotation, j) && firstIndex[j] == FirstUse(rotation, j))
  }

  lemma NoteOne(firstIndex: map<int, int>, referenced: set<int>, rotation: seq<RotationItem>, n: nat)
    requires n < |rotation| && Noted(firstIndex, referenced, rotation, n)
    ensures var page := rotation[n].page;
      Noted(if page in firstIndex then firstIndex else firstIndex[page := n], referenced + {page}, rotation, n + 1)
  {
    var page := rotation[n].page;
    assert rotation[n] in rotation && References(rotation, page);
    if page !in firstIndex {
      assert !(FirstUse(rotation, page) < n);
      assert !(FirstUse(rotation, page) > n);
    }
    hide FirstUse, References;
  }

  lemma AllNoted(firstIndex: map<int, int>, referenced: set<int>, rotation: seq<RotationItem>, enabled: seq<KioskPage>)
    requires Noted(firstIndex, referenced, rotation, |rotation|)
    requires forall item <- rotation :: 0 <= item.page < |enabled|
    ensures (forall j :: j in referenced <==> References(rotation, j)) && Placed(firstIndex, rotation, enabled, 0)
  {
    forall j ensures References(rotation, j) <==> exists u :: 0 <= u < |rotation| && rotation[u].page == j {
      forall u | 0 <= u < |rotation| && rotation[u].page == j ensures References(rotation, j) { assert rotation[u] in rotation; }
    }
    assert forall j :: References(rotation, j) ==> 0 <= j < |enabled|;
    hide FirstUse, References;
  }

  /** The first places of the shown pages and of the unshown ones below n. */
  ghost predicate Placed(firstIndex: map<int, int>, rotation: seq<RotationItem>, enabled: seq<KioskPage>, n: nat) {
    && (forall j :: j in firstIndex <==> 0 <= j < |enabled| && (j < n || References(rotation, j)))
    && (forall j :: j in firstIndex ==> firstIndex[j] == NewIndex(rotation, enabled, j))
  }

  lemma PlaceNext(firstIndex: map<int, int>, rotation: seq<RotationItem>, enabled: seq<KioskPage>, n: nat)
    requires n < |enabled| && Placed(firstIndex, rotation, enabled, n)
    ensures References(rotation, n) ==> Placed(firstIndex, rotation, enabled, n + 1)
    ensures !References(rotation, n) ==>
      Placed(firstIndex[n := |rotation| + |Unshown(rotation, enabled, n)|], rotation, enabled, n + 1)
  {
    hide References, Unshown, FirstUse;
  }

  method LayUnshown(rotation: seq<RotationItem>, enabled: seq<KioskPage>, shown: seq<KioskPage>,
                    firstUse: map<int, int>, referenced: set<int>)
    returns (sequence: seq<KioskPage>, firstIndex: map<int, int>)
    requires |shown| == |rotation|
    requires forall j :: j in referenced <==> References(rotation, j)
    requires Placed(firstUse, rotation, enabled, 0)
    ensures sequence == shown + Unshown(rotation, enabled, |enabled|)
    ensures Placed(firstIndex, rotation, enabled, |enabled|)
  {
    hide Placed, References, FirstUse, NewIndex;
    sequence, firstIndex := shown, firstUse;
    for i := 0 to |enabled|
      invariant sequence == shown + Unshown(rotation, enabled, i)
      invariant Placed(firstIndex, rotation, enabled, i)
    {
      PlaceNext(firstIndex, rotation, enabled, i);
      if i !in referenced {
        firstIndex := firstIndex[i := |sequence|];
        sequence := sequence + [enabled[i]];
      }
    }
  }

  method LayHidden(pages: seq<KioskPage>, laid: seq<KioskPage>) returns (sequence: seq<KioskPage>)
    ensures sequence == laid + Hidden(pages)
  {
    sequence := laid;
    for i := 0 to |pages|
      invariant sequence == laid + Hidden(pages[..i])
    {
      assert pages[..i + 1] == pages[..i] + [pages[i]];
      HiddenAppend(pages[..i], pages[i]);
      if !IsEnabled(pages[i]) { sequence := sequence + [pages[i]]; }
    }
    assert pages[..|pages|] == pages;
  }

  lemma {:induction false} HiddenAppend(pages: seq<KioskPage>, last: KioskPage)
    ensures Hidden(pages + [last]) == Hidden(pages) + if IsEnabled(last) then [] else [last]
  {
    hide IsEnabled;
    if pages == [] {
      assert pages + [last] == [last] && [last][1..] == [];
    } else {
      HiddenAppend(pages[1..], last);
      assert (pages + [last])[1..] == pages[1..] + [last] && (pages + [last])[0] == pages[0];
    }
  }

  // --------------------------------------------------------------- playback

  /** The same page up to the duration, which moves to the rotation position. */
  predicate SamePage(a: KioskPage, b: KioskPage) {
    a.(durationSeconds := 0) == b.(durationSeconds := 0)
  }

  lemma {:induction false} AllEnabled(pages: seq<KioskPage>)
    requires forall page <- pages :: IsEnabled(page)
    ensures Enabled(pages) == pages
  {
    if pages != [] {
      assert pages[0] in pages;
      AllEnabled(pages[1..]);
    }
  }

  lemma {:induction false} NoneEnabled(pages: seq<KioskPage>)
    ensures Enabled(Hidden(pages)) == []
    ensures forall page <- pages :: !IsEnabled(page) ==> page in Hidden(pages)
  {
    if pages != [] {
      NoneEnabled(pages[1..]);
      EnabledConcat(if IsEnabled(pages[0]) then [] else [pages[0]], Hidden(pages[1..]));
    }
  }

  lemma {:induction false} UnshownMembers(rotation: seq<RotationItem>, enabled: seq<KioskPage>, n: nat)
    requires n <= |enabled|
    ensures forall page <- Unshown(rotation, enabled, n) :: page in enabled
  {
    if n > 0 {
      UnshownMembers(rotation, enabled, n - 1);
    }
  }

  lemma {:induction false} UnshownAt(rotation: seq<RotationItem>, enabled: seq<KioskPage>, n: nat, j: nat)
    requires j < n <= |enabled| && !References(rotation, j)
    ensures var u, k := Unshown(rotation, enabled, n), |Unshown(rotation, enabled, j)|;
      k < |u| && u[k] == enabled[j]
  {
    if j < n - 1 {
      UnshownAt(rotation, enabled, n - 1, j);
    }
  }

  /** In index space of the enabled pages, the new list is what is shown, then
      what is not. */
  lemma NewEnabled(q: Sequence)
    requires NeedsMigration(q)
    ensures var enabled := Enabled(q.pages);
      Enabled(Migrated(q).pages) == Shown(q.rotation, enabled) + Unshown(q.rotation, enabled, |enabled|)
  {
    var enabled := Enabled(q.pages);
    var shown, unshown := Shown(q.rotation, enabled), Unshown(q.rotation, enabled, |enabled|);
    UnshownMembers(q.rotation, enabled, |enabled|);
    assert forall page <- shown :: IsEnabled(page) by {
      forall page <- shown ensures IsEnabled(page) {
        var i :| 0 <= i < |shown| && shown[i] == page;
        assert q.rotation[i] in q.rotation;
        assert enabled[q.rotation[i].page] in enabled;
      }
    }
    AllEnabled(shown + unshown);
    NoneEnabled(q.pages);
    EnabledConcat(shown + unshown, Hidden(q.pages));
  }

  /** Position i of the rotation shows the page it showed before, as enabled page
      i, for the same effective time. */
  lemma RotationPlaysTheSame(q: Sequence, i: nat)
    requires NeedsMigration(q) && i < |q.rotation|
    ensures var m := Migrated(q);
      && |m.rotation| == |q.rotation| && m.rotation[i].page == i
      && m.rotation[i].durationSeconds == (if q.rotation[i].durationSeconds > 0 then q.rotation[i].durationSeconds else 3600)
      && i < |Enabled(m.pages)| && 0 <= q.rotation[i].page < |Enabled(q.pages)|
      && Enabled(m.pages)[i] == Enabled(q.pages)[q.rotation[i].page].(durationSeconds := q.rotation[i].durationSeconds)
      && SamePage(Enabled(m.pages)[i], Enabled(q.pages)[q.rotation[i].page])
  {
    NewEnabled(q);
    assert q.rotation[i] in q.rotation;
  }

  /** Every time rule that named a page still names that page. */
  lemma TimeRulesNameTheSame(q: Sequence, i: nat)
    requires NeedsMigration(q) && i < |q.timeRules|
    ensures var m := Migrated(q);
      && |m.timeRules| == |q.timeRules| && m.timeRules[i] == q.timeRules[i].(page := m.timeRules[i].page)
      && (0 <= q.timeRules[i].page < |Enabled(q.pages)| ==>
            0 <= m.timeRules[i].page < |Enabled(m.pages)|
            && SamePage(Enabled(m.pages)[m.timeRules[i].page], Enabled(q.pages)[q.timeRules[i].page])
            && forall j :: 0 <= j < m.timeRules[i].page && j < |q.rotation| ==> q.rotation[j].page != q.timeRules[i].page)
      && (!(0 <= q.timeRules[i].page < |Enabled(q.pages)|) ==> m.timeRules[i] == q.timeRules[i])
  {
    NewEnabled(q);
    var enabled, page := Enabled(q.pages), q.timeRules[i].page;
    if 0 <= page < |enabled| {
      NewIndexSame(q.rotation, enabled, page);
    }
    hide Enabled, NeedsMigration, Shown, Unshown, NewIndex;
  }

  lemma NewIndexSame(rotation: seq<RotationItem>, enabled: seq<KioskPage>, index: nat)
    requires index < |enabled| && forall item <- rotation :: 0 <= item.page < |enabled|
    ensures var laid, at := Shown(rotation, enabled) + Unshown(rotation, enabled, |enabled|), NewIndex(rotation, enabled, index);
      at < |laid| && SamePage(laid[at], enabled[index])
  {
    if !References(rotation, index) { UnshownAt(rotation, enabled, |enabled|, index); }
  }

  /** Every page afterwards was one before, the enabled ones first. */
  lemma NoPageIsAdded(q: Sequence, page: KioskPage)
    requires page in Migrated(q).pages
    ensures exists was <- q.pages :: SamePage(page, was)
    ensures NeedsMigration(q) ==> EnabledFirst(Migrated(q).pages)
  {
    if NeedsMigration(q) {
      var enabled := Enabled(q.pages);
      LaidAreEnabled(q);
      HiddenOnes(q.pages);
      hide Shown, Unshown, Hidden, IsEnabled, NeedsMigration, Enabled;
      EnabledThenHidden(Shown(q.rotation, enabled) + Unshown(q.rotation, enabled, |enabled|), Hidden(q.pages));
    }
  }

  predicate EnabledFirst(pages: seq<KioskPage>) {
    forall i, j :: 0 <= i < j < |pages| && IsEnabled(pages[j]) ==> IsEnabled(pages[i])
  }

  lemma EnabledThenHidden(a: seq<KioskPage>, b: seq<KioskPage>)
    requires (forall page <- a :: IsEnabled(page)) && forall page <- b :: !IsEnabled(page)
    ensures EnabledFirst(a + b)
  {
    hide IsEnabled;
    assert forall i :: 0 <= i < |a| ==> a[i] in a;
    assert forall i :: 0 <= i < |b| ==> b[i] in b;
  }

  lemma LaidAreEnabled(q: Sequence)
    requires NeedsMigration(q)
    ensures var enabled := Enabled(q.pages);
      forall page <- Shown(q.rotation, enabled) + Unshown(q.rotation, enabled, |enabled|) ::
        IsEnabled(page) && exists was <- q.pages :: SamePage(page, was)
  {
    var enabled := Enabled(q.pages);
    var shown := Shown(q.rotation, enabled);
    UnshownMembers(q.rotation, enabled, |enabled|);
    forall page <- shown ensures IsEnabled(page) && exists was <- q.pages :: SamePage(page, was) {
      var i :| 0 <= i < |shown| && shown[i] == page;
      assert q.rotation[i] in q.rotation && enabled[q.rotation[i].page] in enabled;
    }
    assert forall page <- Unshown(q.rotation, enabled, |enabled|) :: SamePage(page, page);
  }

  lemma {:induction false} HiddenOnes(pages: seq<KioskPage>)
    ensures forall page <- Hidden(pages) :: page in pages && !IsEnabled(page)
  {
    if pages != [] { HiddenOnes(pages[1..]); }
  }

  /** No page is lost, enabled or not. */
  lemma NoPageIsLost(q: Sequence, page: KioskPage)
    requires page in q.pages
    ensures exists kept <- Migrated(q).pages :: SamePage(kept, page)
  {
    if !NeedsMigration(q) {
      assert page in Migrated(q).pages;
    } else if IsEnabled(page) {
      var enabled := Enabled(q.pages);
      assert page in enabled;
      var j :| 0 <= j < |enabled| && enabled[j] == page;
      NewIndexSame(q.rotation, enabled, j);
      var at := NewIndex(q.rotation, enabled, j);
      assert Migrated(q).pages[at] == (Shown(q.rotation, enabled) + Unshown(q.rotation, enabled, |enabled|))[at];
    } else {
      NoneEnabled(q.pages);
      assert page in Migrated(q).pages;
    }
  }

  /** The old numbers of the pages the rotation never shows, below n. */
  function UnshownIndexes(rotation: seq<RotationItem>, n: nat): (r: seq<int>)
    ensures forall index :: index in r <==> 0 <= index < n && !References(rotation, index)
  {
    if n == 0 then [] else UnshownIndexes(rotation, n - 1) + if References(rotation, n - 1) then [] else [n - 1]
  }

  lemma {:induction false} UnshownByIndex(rotation: seq<RotationItem>, enabled: seq<KioskPage>, n: nat)
    requires n <= |enabled|
    ensures |UnshownIndexes(rotation, n)| == |Unshown(rotation, enabled, n)|
    ensures forall i :: 0 <= i < |UnshownIndexes(rotation, n)| ==>
      0 <= UnshownIndexes(rotation, n)[i] < n && Unshown(rotation, enabled, n)[i] == enabled[UnshownIndexes(rotation, n)[i]]
  {
    hide References;
    if n > 0 { UnshownByIndex(rotation, enabled, n - 1); }
  }

  /** The old number of the page found at position j of the new list. */
  function OldIndex(rotation: seq<RotationItem>, n: nat, j: nat): int
    requires j < |rotation| + |UnshownIndexes(rotation, n)|
  {
    if j < |rotation| then rotation[j].page else UnshownIndexes(rotation, n)[j - |rotation|]
  }

  /** The last page is the last unshown one, if it is unshown at all. */
  lemma LastUnshown(rotation: seq<RotationItem>, n: nat, i: nat)
    requires n > 0 && i < |UnshownIndexes(rotation, n)|
    ensures UnshownIndexes(rotation, n)[i] == n - 1 <==> !References(rotation, n - 1) && i == |UnshownIndexes(rotation, n)| - 1
  {
    var before := UnshownIndexes(rotation, n - 1);
    assert forall j :: 0 <= j < |before| ==> before[j] in before;
    hide References;
  }

  /** A time rule outside the range keeps its number, and the scheduler clamps it
      to the first or the last page. It still names the page it named exactly
      when the rotation begins with the first page, or respectively when the
      position it is clamped to now shows the last page or, if the rotation never
      does, is the last one. */
  lemma OutOfRangeRuleExactly(q: Sequence, i: nat)
    requires NeedsMigration(q) && i < |q.timeRules|
    requires !(0 <= q.timeRules[i].page < |Enabled(q.pages)|)
    ensures var m, page, n := Migrated(q), q.timeRules[i].page, |Enabled(q.pages)|;
      var was, now := ClampPage(page, n), ClampPage(page, |Enabled(m.pages)|);
      && m.timeRules[i] == q.timeRules[i]
      && |Enabled(m.pages)| == |q.rotation| + |UnshownIndexes(q.rotation, n)|
      && 0 <= was < n && 0 <= now < |Enabled(m.pages)|
      && 0 <= OldIndex(q.rotation, n, now) < n
      && SamePage(Enabled(m.pages)[now], Enabled(q.pages)[OldIndex(q.rotation, n, now)])
      && (OldIndex(q.rotation, n, now) == was <==> StaysNamed(q.rotation, n, page, now))
  {
    hide *;
    var enabled, page := Enabled(q.pages), q.timeRules[i].page;
    Needs(q);
    NewEnabled(q);
    RuleKept(q, i);
    UnshownByIndex(q.rotation, enabled, |enabled|);
    NamedExactly(q.rotation, |enabled|, page);
    LaidAt(q.rotation, enabled, ClampPage(page, |q.rotation| + |UnshownIndexes(q.rotation, |enabled|)|));
  }

  lemma RuleKept(q: Sequence, i: nat)
    requires i < |q.timeRules| && !(0 <= q.timeRules[i].page < |Enabled(q.pages)|)
    ensures |Migrated(q).timeRules| == |q.timeRules| && Migrated(q).timeRules[i] == q.timeRules[i]
  {
    hide Enabled, NeedsMigration, Shown, Unshown, Hidden;
  }

  lemma Needs(q: Sequence)
    requires NeedsMigration(q)
    ensures q.rotation != [] && Enabled(q.pages) != [] && forall item <- q.rotation :: 0 <= item.page < |Enabled(q.pages)|
  {
    hide Enabled;
  }

  lemma NamedExactly(rotation: seq<RotationItem>, n: nat, page: int)
    requires rotation != [] && n > 0 && !(0 <= page < n) && forall item <- rotation :: 0 <= item.page < n
    ensures var now := ClampPage(page, |rotation| + |UnshownIndexes(rotation, n)|);
      && 0 <= now < |rotation| + |UnshownIndexes(rotation, n)|
      && (OldIndex(rotation, n, now) == ClampPage(page, n) <==> StaysNamed(rotation, n, page, now))
  {
    var now := ClampPage(page, |rotation| + |UnshownIndexes(rotation, n)|);
    if now >= |rotation| { LastUnshown(rotation, n, now - |rotation|); }
    if now < |rotation| && rotation[now].page == n - 1 { assert rotation[now] in rotation && References(rotation, n - 1); }
    hide UnshownIndexes, References;
  }

  lemma LaidAt(rotation: seq<RotationItem>, enabled: seq<KioskPage>, j: nat)
    requires forall item <- rotation :: 0 <= item.page < |enabled|
    requires j < |rotation| + |UnshownIndexes(rotation, |enabled|)|
    ensures var laid := Shown(rotation, enabled) + Unshown(rotation, enabled, |enabled|);
      && j < |laid| && 0 <= OldIndex(rotation, |enabled|, j) < |enabled|
      && SamePage(laid[j], enabled[OldIndex(rotation, |enabled|, j)])
  {
    UnshownByIndex(rotation, enabled, |enabled|);
    assert forall i :: 0 <= i < |rotation| ==> rotation[i] in rotation;
    hide Unshown, UnshownIndexes;
  }

  predicate StaysNamed(rotation: seq<RotationItem>, n: nat, page: int, now: nat) {
    if page < 0 then rotation != [] && rotation[0].page == 0
    else if References(rotation, n - 1) then now < |rotation| && rotation[now].page == n - 1
    else now == |rotation| + |UnshownIndexes(rotation, n)| - 1
  }

  /** One that does not: the last page b before, then a. */
  lemma OutOfRangeRuleMayMove(a: KioskPage, b: KioskPage, rule: TimeRule)
    requires IsEnabled(a) && IsEnabled(b) && a.pageID == "" && b.pageID == "" && rule.page == 2
    ensures var q := Sequence([a, b], [RotationItem(1, 60), RotationItem(0, 60)], [rule]);
      var m := Migrated(q);
      && Enabled(q.pages)[ClampPage(q.timeRules[0].page, 2)] == b
      && |Enabled(m.pages)| == 2 && SamePage(Enabled(m.pages)[ClampPage(m.timeRules[0].page, 2)], a)
  {
    var q := Sequence([a, b], [RotationItem(1, 60), RotationItem(0, 60)], [rule]);
    AllEnabled(q.pages);
    assert NeedsMigration(q) by {
      assert q.rotation[0].page == 1;
    }
    AllShown(q);
    TimeRulesNameTheSame(q, 0);
    RotationPlaysTheSame(q, 1);
    hide Migrated, Enabled, IsEnabled, NeedsMigration;
  }

  lemma AllShown(q: Sequence)
    requires NeedsMigration(q) && |Enabled(q.pages)| == 2 && |q.rotation| == 2
    requires q.rotation[0].page == 1 && q.rotation[1].page == 0
    ensures |Enabled(Migrated(q).pages)| == 2
  {
    var enabled := Enabled(q.pages);
    NewEnabled(q);
    assert q.rotation[0] in q.rotation && q.rotation[1] in q.rotation;
    hide Enabled, Migrated;
    assert References(q.rotation, 0) && References(q.rotation, 1);
    assert Unshown(q.rotation, enabled, 0) == [];
    assert Unshown(q.rotation, enabled, 1) == [];
    assert Unshown(q.rotation, enabled, 2) == [];
  }
}
