/** Kept browser tabs: which page sits in which tab, in order of use, and which
    are closed when there are too many. In navigate mode the same bookkeeping
    holds the page under an insert and the insert itself. */
module Tabs {
  import opened Text
  import opened Config

  function MaxTabs(k: KioskConfig): (n: nat)
    ensures 1 <= n <= 8
  {
    if 1 <= k.maxTabs <= 8 then k.maxTabs else if k.lowPower then 2 else 3
  }

  /** Moves a page to the most recently used end. */
  function Touched(use: seq<int>, index: int): seq<int> {
    Without(use, index) + [index]
  }

  function Without(use: seq<int>, index: int): (r: seq<int>)
    ensures forall x :: x in r <==> x in use && x != index
    ensures Distinct(use) ==> Distinct(r)
  {
    if use == [] then []
    else if use[0] == index then
      Without(use[1..], index)
    else
      var r := Without(use[1..], index);
      assert Distinct(use) ==> use[0] !in use[1..];
      assert forall j :: 0 <= j < |r| ==> r[j] in r;
      [use[0]] + r
  }

  lemma PrependDistinct(index: int, use: seq<int>)
    requires Distinct(use)
    ensures Distinct([index] + use) <==> index !in use
    ensures forall x :: x in [index] + use <==> x == index || x in use
  {
    var longer := [index] + use;
    if index in use {
      var i :| 0 <= i < |use| && use[i] == index;
      assert longer[0] == longer[i + 1];
    }
  }

  lemma {:induction false} WithoutAppend(use: seq<int>, last: int, index: int)
    ensures Without(use + [last], index) == Without(use, index) + if last == index then [] else [last]
  {
    if use == [] {
      assert (use + [last])[1..] == [];
    } else {
      assert (use + [last])[1..] == use[1..] + [last];
      WithoutAppend(use[1..], last, index);
    }
  }

  lemma {:induction false} WithoutOthers(use: seq<int>, index: int)
    requires index !in use
    ensures Without(use, index) == use
  {
    if use != [] { WithoutOthers(use[1..], index); }
  }

  lemma {:induction false} WithoutConcat(a: seq<int>, b: seq<int>, index: int)
    ensures Without(a + b, index) == Without(a, index) + Without(b, index)
  {
    if a == [] {
      assert a + b == b;
    } else {
      assert (a + b)[1..] == a[1..] + b;
      WithoutConcat(a[1..], b, index);
    }
  }

  /** The page goes to the end, the others keep their order. */
  lemma TouchedAt(use: seq<int>, index: int)
    ensures index !in use ==> Touched(use, index) == use + [index]
    ensures forall i :: 0 <= i < |use| && use[i] == index && index !in use[..i] + use[i + 1..] ==>
      Touched(use, index) == use[..i] + use[i + 1..] + [index]
  {
    if index !in use { WithoutOthers(use, index); }
    forall i | 0 <= i < |use| && use[i] == index && index !in use[..i] + use[i + 1..]
      ensures Touched(use, index) == use[..i] + use[i + 1..] + [index]
    {
      var before, after := use[..i], use[i + 1..];
      assert use == before + ([index] + after) && [index][1..] == [];
      WithoutOthers(before, index);
      WithoutOthers(after, index);
      WithoutConcat(before, [index] + after, index);
      WithoutConcat([index], after, index);
    }
  }

  // -------------------------------------------------------------- eviction

  /** First page in order of use that may go, or -1. */
  function Victim(use: seq<int>, safe: set<int>): (r: int)
    ensures -1 <= r < |use|
    ensures r >= 0 ==> use[r] !in safe && forall i :: 0 <= i < r ==> use[i] in safe
    ensures r < 0 ==> forall x <- use :: x in safe
  {
    if use == [] then -1
    else if use[0] !in safe then 0
    else
      var r := Victim(use[1..], safe);
      if r < 0 then -1 else r + 1
  }

  /** What the eviction is for: the n least recently used pages that may go are
      dropped, everything else stays in order. */
  function DropOldest(use: seq<int>, safe: set<int>, n: nat): (r: seq<int>)
    ensures |r| >= |use| - n
  {
    if use == [] || n == 0 then use
    else if use[0] in safe then [use[0]] + DropOldest(use[1..], safe, n)
    else DropOldest(use[1..], safe, n - 1)
  }

  function Evictable(use: seq<int>, safe: set<int>): nat {
    if use == [] then 0 else (if use[0] in safe then 0 else 1) + Evictable(use[1..], safe)
  }

  /** How many have to go: down to the limit, as far as that is allowed. */
  function Excess(use: seq<int>, safe: set<int>, limit: nat): nat {
    var over := if |use| > limit then |use| - limit else 0;
    if over < Evictable(use, safe) then over else Evictable(use, safe)
  }

  function Evicted(use: seq<int>, safe: set<int>, limit: nat): seq<int> {
    DropOldest(use, safe, Excess(use, safe, limit))
  }

  /** Dropping the first victim is the first step of dropping the oldest. */
  lemma {:induction false} DropVictim(use: seq<int>, safe: set<int>, n: nat)
    requires Victim(use, safe) >= 0 && n > 0
    ensures var v := Victim(use, safe);
      DropOldest(use, safe, n) == DropOldest(use[..v] + use[v + 1..], safe, n - 1)
      && Evictable(use, safe) == 1 + Evictable(use[..v] + use[v + 1..], safe)
  {
    var v := Victim(use, safe);
    if v == 0 {
      assert use[..0] + use[1..] == use[1..];
    } else {
      var tail := use[1..];
      DropVictim(tail, safe, n);
      var shorter := tail[..v - 1] + tail[v..];
      assert use[..v] + use[v + 1..] == [use[0]] + shorter;
      assert ([use[0]] + shorter)[1..] == shorter;
    }
  }

  /** Evicting the first victim leaves the rest of the work unchanged. */
  lemma EvictOne(use: seq<int>, safe: set<int>, limit: nat)
    requires |use| > limit && Victim(use, safe) >= 0
    ensures var rest := use[..Victim(use, safe)] + use[Victim(use, safe) + 1..];
      Evicted(use, safe, limit) == Evicted(rest, safe, limit)
  {
    NoVictim(use, safe);
    DropVictim(use, safe, Excess(use, safe, limit));
    hide DropOldest, Evictable;
  }

  lemma EvictionDone(use: seq<int>, safe: set<int>, limit: nat)
    requires |use| <= limit || Victim(use, safe) < 0
    ensures Evicted(use, safe, limit) == use
  {
    NoVictim(use, safe);
  }

  lemma EvictionKeeps(use: seq<int>, safe: set<int>, limit: nat)
    requires Distinct(use)
    ensures var kept := Evicted(use, safe, limit);
      (|kept| <= limit || forall x <- kept :: x in safe) && forall x <- use :: x in safe ==> x in kept
  {
    EvictionIsFair(use, safe, limit);
  }

  lemma {:induction false} NoVictim(use: seq<int>, safe: set<int>)
    ensures Victim(use, safe) < 0 <==> Evictable(use, safe) == 0
    ensures DropOldest(use, safe, 0) == use
  {
    if use != [] {
      NoVictim(use[1..], safe);
    }
  }

  /** Protected pages always stay; a page that may go stays only if every page
      that may go and was used less recently is gone; in the end there are at most
      `limit` pages, or only protected ones, and no page went that did not have
      to. */
  lemma {:induction false} EvictionIsFair(use: seq<int>, safe: set<int>, limit: nat)
    requires Distinct(use)
    ensures var kept := Evicted(use, safe, limit);
      && |kept| == |use| - Excess(use, safe, limit)
      && (kept != use ==> |kept| >= limit)
      && (|kept| <= limit || forall x <- kept :: x in safe)
      && Distinct(kept) && (forall x <- kept :: x in use) && (forall x <- use :: x in safe ==> x in kept)
      && forall i, j :: 0 <= i < j < |use| && use[i] !in safe && use[j] !in kept ==> use[i] !in kept
  {
    DropOldestKeeps(use, safe, Excess(use, safe, limit));
    NoVictim(use, safe);
  }

  lemma {:induction false} DropOldestKeeps(use: seq<int>, safe: set<int>, n: nat)
    requires Distinct(use) && n <= Evictable(use, safe)
    ensures var kept := DropOldest(use, safe, n);
      && |kept| == |use| - n
      && (n == Evictable(use, safe) ==> forall x <- kept :: x in safe)
      && Distinct(kept) && (forall x <- kept :: x in use) && (forall x <- use :: x in safe ==> x in kept)
      && forall i, j :: 0 <= i < j < |use| && use[i] !in safe && use[j] !in kept ==> use[i] !in kept
  {
    if use != [] && n > 0 {
      var rest, m := use[1..], if use[0] in safe then n else n - 1;
      DropOldestKeeps(rest, safe, m);
      var kept := DropOldest(rest, safe, m);
      assert use[0] !in rest;
      forall i, j | 0 <= i < j < |use| && use[i] !in safe && use[j] !in DropOldest(use, safe, n)
        ensures use[i] !in DropOldest(use, safe, n)
      {
        if i > 0 {
          assert rest[i - 1] == use[i] && rest[j - 1] == use[j];
        }
      }
    } else if use != [] {
      NoneEvictable(use, safe);
    }
  }

  /** The page touched last stays the most recently used one. */
  lemma EvictedLast(use: seq<int>, top: int, safe: set<int>, limit: nat)
    requires top in safe
    ensures var kept := Evicted(Touched(use, top), safe, limit); kept != [] && kept[|kept| - 1] == top
  {
    LastStays(Without(use, top), top, safe, Excess(Touched(use, top), safe, limit));
  }

  lemma {:induction false} LastStays(use: seq<int>, top: int, safe: set<int>, n: nat)
    requires top in safe
    ensures var kept := DropOldest(use + [top], safe, n); kept != [] && kept[|kept| - 1] == top
  {
    if use == [] {
      assert use + [top] == [top] && [top][1..] == [];
    } else if n > 0 {
      assert (use + [top])[1..] == use[1..] + [top];
      LastStays(use[1..], top, safe, if use[0] in safe then n else n - 1);
    }
  }

  /** Who stays: a page keeps its tab if and only if it is protected or enough
      other pages that may go were used less recently. */
  lemma {:induction false} StaysExactly(use: seq<int>, safe: set<int>, n: nat, at: nat)
    requires Distinct(use) && at < |use|
    ensures use[at] in DropOldest(use, safe, n) <==> use[at] in safe || Evictable(use[..at], safe) >= n
  {
    if n > 0 {
      var rest, m := use[1..], if use[0] in safe then n else n - 1;
      DropOldestIsPart(rest, safe, m);
      if at > 0 {
        assert use[..at][1..] == rest[..at - 1] && rest[at - 1] == use[at];
        StaysExactly(rest, safe, m, at - 1);
      }
    }
  }

  /** How many of the pages with a tab are protected. */
  function Protected(use: seq<int>, safe: set<int>): int { |use| - Evictable(use, safe) }

  lemma {:induction false} EvictableOf(use: seq<int>, safe: set<int>, last: int)
    ensures Evictable(use + [last], safe) == Evictable(use, safe) + if last in safe then 0 else 1
  {
    if use == [] {
      assert (use + [last])[1..] == [];
    } else {
      assert (use + [last])[1..] == use[1..] + [last];
      EvictableOf(use[1..], safe, last);
    }
  }

  /** When page `top` comes on screen over page `base`, which was the last one
      used, base loses its tab if and only if it is not protected and the
      protected pages fill the limit. */
  lemma PageUnderneathExactly(rest: seq<int>, base: int, top: int, safe: set<int>, limit: nat)
    requires Distinct(rest + [base, top]) && top in safe && limit >= 1
    ensures var use := rest + [base, top];
      base in Evicted(use, safe, limit) <==> base in safe || Protected(use, safe) < limit
  {
    var use := rest + [base, top];
    assert use == rest + [base] + [top] && use[|rest|] == base && use[..|rest|] == rest;
    EvictableOf(rest, safe, base);
    EvictableOf(rest + [base], safe, top);
    StaysExactly(use, safe, Excess(use, safe, limit), |rest|);
  }

  /** The same for the order of use that showing `top` leaves behind. */
  lemma TouchedUnderneath(use: seq<int>, top: int, safe: set<int>, limit: nat)
    requires Distinct(use) && use != [] && use[|use| - 1] != top && top in safe && limit >= 1
    ensures var base, touched := use[|use| - 1], Touched(use, top);
      base in Evicted(touched, safe, limit) <==> base in safe || Protected(touched, safe) < limit
  {
    var base, rest := use[|use| - 1], Without(use[..|use| - 1], top);
    assert use == use[..|use| - 1] + [base];
    WithoutAppend(use[..|use| - 1], base, top);
    assert Touched(use, top) == rest + [base, top];
    TouchedDistinct(use, top);
    PageUnderneathExactly(rest, base, top, safe, limit);
  }

  /** The page last used before `top` keeps its tab exactly when it is protected
      or the protected pages leave room. */
  predicate UnderneathKept(use: seq<int>, top: int, safe: set<int>, limit: nat, after: seq<int>) {
    use == [] || use[|use| - 1] == top ||
    (use[|use| - 1] in after <==> use[|use| - 1] in safe || Protected(Touched(use, top), safe) < limit)
  }

  lemma Underneath(use: seq<int>, top: int, safe: set<int>, limit: nat)
    requires Distinct(use) && top in safe && limit >= 1
    ensures UnderneathKept(use, top, safe, limit, Evicted(Touched(use, top), safe, limit))
  {
    if use != [] && use[|use| - 1] != top { TouchedUnderneath(use, top, safe, limit); }
  }

  lemma TouchedDistinct(use: seq<int>, top: int)
    requires Distinct(use)
    ensures Distinct(Touched(use, top)) && forall x :: x in Touched(use, top) <==> x in use || x == top
  {
    var r := Without(use, top);
    assert forall i :: 0 <= i < |r| ==> r[i] in r;
  }

  lemma {:induction false} EvictableBelow(use: seq<int>, safe: set<int>)
    ensures Evictable(use, safe) <= |use|
  {
    if use != [] { EvictableBelow(use[1..], safe); }
  }

  /** In tab mode the page under an insert is protected by preloading only: with
      one tab allowed, showing an insert closes every other page's tab. */
  lemma TabModeMayCloseThePageUnderneath(k: KioskConfig, use: seq<int>, top: int)
    requires k.tabMode && MaxTabs(k) == 1
    requires Distinct(use) && use != [] && use[|use| - 1] != top && use[|use| - 1] !in k.PreloadIndexes()
    ensures use[|use| - 1] !in Evicted(Touched(use, top), {top} + k.PreloadIndexes(), MaxTabs(k))
    ensures Evicted([0, 1], {1}, 1) == [1]
  {
    var safe := {top} + k.PreloadIndexes();
    EvictableOf(Without(use, top), safe, top);
    EvictableBelow(Without(use, top), safe);
    TouchedUnderneath(use, top, safe, 1);
    assert [0, 1][1..] == [1] && [1][1..] == [];
  }

  lemma {:induction false} DropOldestIsPart(use: seq<int>, safe: set<int>, n: nat)
    ensures forall x <- DropOldest(use, safe, n) :: x in use
  {
    if use != [] && n > 0 { DropOldestIsPart(use[1..], safe, if use[0] in safe then n else n - 1); }
  }

  lemma {:induction false} NoneEvictable(use: seq<int>, safe: set<int>)
    ensures Evictable(use, safe) == 0 <==> forall x <- use :: x in safe
  {
    if use != [] {
      NoneEvictable(use[1..], safe);
      assert forall x :: x in use <==> x == use[0] || x in use[1..];
    }
  }

  // ------------------------------------------------------------------ tabs

  /** Every page with a tab has an address and one place in the order of use. */
  ghost predicate Matched(use: seq<int>, tabs: map<int, string>, urls: map<int, string>) {
    && Distinct(use) && tabs.Keys == urls.Keys
    && forall index :: index in use <==> index in tabs
  }

  /** A new tab, or one whose page address was edited, is to be navigated. */
  function Marked(pending: set<string>, urls: map<int, string>, index: int, id: string, created: bool, want: string): set<string> {
    if created || index !in urls || urls[index] != want then pending + {id} else pending
  }

  lemma MarkedExactly(pending: set<string>, urls: map<int, string>, index: int, id: string, created: bool, want: string)
    ensures forall other :: other in Marked(pending, urls, index, id, created, want) <==>
      (other in pending || (other == id && (created || index !in urls || urls[index] != want)))
  {
  }

  lemma MatchedTouched(use: seq<int>, tabs: map<int, string>, urls: map<int, string>, index: int, id: string, url: string)
    requires Matched(use, tabs, urls)
    ensures Matched(Touched(use, index), tabs[index := id], urls[index := url])
  {
    TouchedDistinct(use, index);
    hide Distinct, Touched;
  }

  lemma MatchedFirst(use: seq<int>, tabs: map<int, string>, urls: map<int, string>, index: int, id: string, url: string)
    requires Matched(use, tabs, urls)
    ensures Matched([index] + use, tabs[index := id], urls[index := url]) <==> index !in tabs
  {
    PrependDistinct(index, use);
    hide Distinct;
  }

  lemma MatchedWithout(use: seq<int>, tabs: map<int, string>, urls: map<int, string>, position: nat)
    requires Matched(use, tabs, urls) && position < |use|
    ensures Matched(use[..position] + use[position + 1..], tabs - {use[position]}, urls - {use[position]})
  {
    var index, rest := use[position], use[..position] + use[position + 1..];
    assert use == use[..position] + [index] + use[position + 1..];
    assert forall x :: x in rest <==> x in use && x != index;
  }

  /** The tab books of the browser: for each page with a tab its target and the
      address loaded in it, and the pages in order of use. */
  class TabKeeper {
    var active: int
    var activeTarget: string
    var tabs: map<int, string>
    var tabURL: map<int, string>
    var tabUse: seq<int>
    var pendingBlank: set<string>
    var revealTarget: string
    var retarget: bool
    var insertTab: bool
    var insertBase: int

    constructor ()
      ensures Valid() && tabs == map[] && activeTarget == "" && !insertTab
    {
      active, activeTarget, insertTab, insertBase := 0, "", false, 0;
      tabs, tabURL, tabUse, pendingBlank := map[], map[], [], {};
      revealTarget, retarget := "", false;
    }

    /** The books are consistent, an insert in its own tab leaves the page under it
        its tab, and no two pages share a tab. */
    ghost predicate Valid()
      reads this`tabs, this`tabURL, this`tabUse, this`insertTab, this`insertBase, this`activeTarget
    {
      Booked() && Separate(tabs)
    }

    /** Every page with a tab has an address and one place in the order of use,
        and the page under an insert keeps its tab. */
    ghost predicate Booked()
      reads this`tabs, this`tabURL, this`tabUse, this`insertTab, this`insertBase, this`activeTarget
    {
      Consistent() && (insertTab ==> insertBase in tabs && activeTarget != "")
    }

    /** The target is the page's own or in no books. */
    ghost predicate Own(index: int, id: string)
      reads this`tabs
    {
      id != "" && forall page <- tabs :: page != index ==> tabs[page] != id
    }

    ghost predicate Consistent()
      reads this`tabs, this`tabURL, this`tabUse
    {
      Matched(tabUse, tabs, tabURL)
    }

    function Books(): (map<int, string>, map<int, string>, seq<int>, set<string>)
      reads this
    {
      (tabs, tabURL, tabUse, pendingBlank)
    }

    /** Pages that must not be closed while page keep is shown. */
    function Safe(k: KioskConfig, keep: int): (r: set<int>)
      reads this`insertTab, this`insertBase
      ensures keep in r
      ensures (insertTab || !k.tabMode) ==> insertBase in r
    {
      {keep} + k.PreloadIndexes() + if insertTab || !k.tabMode then {insertBase} else {}
    }

    lemma SafeHoldsPreloaded(k: KioskConfig, keep: int)
      ensures k.PreloadIndexes() <= Safe(k, keep)
    {
    }

    function Limit(k: KioskConfig): (n: nat)
      reads this`insertTab
      ensures n >= 1
    {
      if (insertTab || !k.tabMode) && MaxTabs(k) < 2 then 2 else MaxTabs(k)
    }

    method ResetTabs()
      modifies this
      ensures Valid() && tabs == map[] && activeTarget == "" && pendingBlank == {} && !insertTab
      ensures active == old(active)
    {
      tabs, tabUse, tabURL, pendingBlank := map[], [], map[], {};
      activeTarget, revealTarget := "", "";
      retarget, insertTab := false, false;
    }

    method TouchTab(index: int)
      modifies this`tabUse
      ensures tabUse == Touched(old(tabUse), index)
      ensures tabUse[|tabUse| - 1] == index
      ensures index !in old(tabUse) ==> tabUse == old(tabUse) + [index]
      ensures forall i :: 0 <= i < |old(tabUse)| && old(tabUse)[i] == index && index !in old(tabUse)[..i] + old(tabUse)[i + 1..] ==>
        tabUse == old(tabUse)[..i] + old(tabUse)[i + 1..] + [index]
    {
      var out, past := [], tabUse;
      for i := 0 to |past|
        invariant out == Without(past[..i], index)
      {
        assert past[..i + 1] == past[..i] + [past[i]];
        WithoutAppend(past[..i], past[i], index);
        if past[i] != index { out := out + [past[i]]; }
      }
      assert past[..|past|] == past;
      tabUse := out + [index];
      assert tabUse == Touched(past, index);
      hide *;
      TouchedAt(past, index);
    }

    /** Records the tab on screen as the one of page base, alone. */
    method KeepTabForInsert(k: KioskConfig, base: int) returns (kept: bool)
      requires Valid()
      modifies this`tabs, this`tabURL, this`tabUse, this`pendingBlank, this`insertBase
      ensures Valid() && kept == (activeTarget != "")
      ensures insertBase == if kept then base else old(insertBase)
      ensures if kept then Books() == (map[base := activeTarget], map[base := k.ActiveURL(base)], [base], {})
              else Books() == old(Books())
    {
      hide KioskConfig.ActiveURL;
      if activeTarget == "" { return false; }
      tabs, tabURL, tabUse := map[base := activeTarget], map[base := k.ActiveURL(base)], [base];
      pendingBlank, insertBase := {}, base;
      return true;
    }

    /** Back to one tab. Closes the tabs of all other pages and nothing else, and
        never a tab that is on screen or kept. */
    method CloseOtherTabs(k: KioskConfig, keep: int) returns (closing: set<string>)
      requires Valid()
      modifies this`tabs, this`tabURL, this`tabUse, this`insertTab
      ensures Valid() && !insertTab
      ensures var target := if keep in old(tabs) && old(tabs)[keep] != "" then old(tabs)[keep] else activeTarget;
        && (target != "" ==> tabs == map[keep := target])
        && (target == "" ==> tabs == old(tabs))
        && activeTarget !in closing && target !in closing
        && forall index <- old(tabs) :: index != keep ==>
             old(tabs)[index] in closing || old(tabs)[index] == target || old(tabs)[index] == activeTarget
      ensures forall target <- closing :: exists index <- old(tabs) :: index != keep && old(tabs)[index] == target
    {
      hide KioskConfig.ActiveURL;
      var target := if keep in tabs && tabs[keep] != "" then tabs[keep] else activeTarget;
      closing := set index | index in tabs && index != keep && tabs[index] != target && tabs[index] != activeTarget :: tabs[index];
      insertTab := false;
      if target != "" {
        tabs, tabURL, tabUse := map[keep := target], map[keep := k.ActiveURL(keep)], [keep];
      }
    }

    /** Records the target the control session attached to; whether it is a new
        tab that still needs its first navigation. Pages keep tabs of their own
        exactly when a target bound to the active page is in no other page's. */
    method BindControlTarget(k: KioskConfig, id: string) returns (blank: bool)
      requires Valid()
      modifies this`activeTarget, this`tabs, this`tabURL, this`tabUse, this`pendingBlank
      ensures Booked()
      ensures Valid() <==> (id != "" && old(activeTarget) == "" && active !in old(tabs) ==> !InBooks(old(tabs), id))
      ensures blank <==> id != "" && id in old(pendingBlank)
      ensures pendingBlank == old(pendingBlank) - (if id == "" then {} else {id})
      ensures activeTarget == (if id != "" && old(activeTarget) == "" then id else old(activeTarget))
      ensures tabs == if id != "" && old(activeTarget) == "" && active !in old(tabs) then old(tabs)[active := id] else old(tabs)
    {
      hide KioskConfig.ActiveURL, Separate, Matched, InBooks, Touched;
      if id == "" { return false; }
      SeparateBooked(tabs, active, id);
      MatchedTouched(tabUse, tabs, tabURL, active, id, k.ActiveURL(active));
      if activeTarget == "" {
        activeTarget := id;
        if active !in tabs {
          tabs := tabs[active := id];
          TouchTab(active);
          tabURL := tabURL[active := k.ActiveURL(active)];
        }
      }
      blank := id in pendingBlank;
      pendingBlank := pendingBlank - {id};
    }

    /** Drops the page at one position of the order of use. */
    method Forget(position: nat)
      requires Consistent() && position < |tabUse|
      modifies this`tabs, this`tabURL, this`tabUse
      ensures Consistent()
      ensures tabUse == old(tabUse)[..position] + old(tabUse)[position + 1..]
      ensures tabs == old(tabs) - {old(tabUse)[position]} && tabURL == old(tabURL) - {old(tabUse)[position]}
    {
      MatchedWithout(tabUse, tabs, tabURL, position);
      hide Matched;
      var index := tabUse[position];
      tabUse := tabUse[..position] + tabUse[position + 1..];
      tabs, tabURL := tabs - {index}, tabURL - {index};
    }

    lemma ValidNow()
      requires Matched(tabUse, tabs, tabURL) && Separate(tabs) && (insertTab ==> insertBase in tabs && activeTarget != "")
      ensures Valid()
    {
    }

    lemma SafeMeans(k: KioskConfig, keep: int)
      ensures Safe(k, keep) == {keep} + k.PreloadIndexes() + if insertTab || !k.tabMode then {insertBase} else {}
      ensures Limit(k) == if (insertTab || !k.tabMode) && MaxTabs(k) < 2 then 2 else MaxTabs(k)
    {
    }

    lemma URLsBooked()
      requires Valid()
      ensures tabURL.Keys == tabs.Keys
    {
    }

    lemma ValidParts(index: int, id: string)
      requires Valid() && Own(index, id)
      ensures Matched(tabUse, tabs, tabURL) && Separate(tabs[index := id])
      ensures insertTab ==> insertBase in tabs[index := id] && activeTarget != ""
    {
      OwnBooked(tabs, index, id);
    }

    lemma UseIsTabs()
      requires Consistent()
      ensures Distinct(tabUse) && forall index :: index in tabUse <==> index in tabs
    {
    }

    /** Closes the tab at one position of the order of use; `closed` and the
        books `before` are those of the whole eviction. */
    method CloseAt(position: nat, keep: int, closed: seq<string>, ghost before: map<int, string>, ghost urls: map<int, string>)
      returns (more: seq<string>)
      requires Consistent() && position < |tabUse| && keep in tabs && tabUse[position] != keep
      requires Part(tabs, before) && Part(tabURL, urls) && Closes(before, tabs, closed, tabs[keep])
      modifies this`tabs, this`tabURL, this`tabUse
      ensures Consistent() && keep in tabs
      ensures tabUse == old(tabUse)[..position] + old(tabUse)[position + 1..]
      ensures Part(tabs, before) && Part(tabURL, urls) && Closes(before, tabs, more, tabs[keep])
    {
      var oldest := tabUse[position];
      CloseStep(before, tabs, closed, oldest, keep);
      PartStep(urls, tabURL, oldest);
      hide Part, Closes, Distinct;
      more := if tabs[oldest] != "" && tabs[oldest] != tabs[keep] then closed + [tabs[oldest]] else closed;
      Forget(position);
    }

    /** Closes least recently used tabs above the limit. */
    method EvictTabs(k: KioskConfig, keep: int) returns (closed: seq<string>)
      requires Valid() && keep in tabs
      modifies this`tabs, this`tabURL, this`tabUse
      ensures Valid() && keep in tabs
      ensures tabUse == Evicted(old(tabUse), old(Safe(k, keep)), old(Limit(k)))
      ensures Part(tabs, old(tabs)) && Part(tabURL, old(tabURL))
      ensures Closes(old(tabs), tabs, closed, tabs[keep]) && NoneOf(closed, tabs)
      ensures KeepsSafe(old(tabs), tabs, old(Safe(k, keep))) && WithinLimit(tabUse, old(Safe(k, keep)), old(Limit(k)))
    {
      closed := [];
      var safe, limit := Safe(k, keep), Limit(k);
      PartItself(tabs);
      PartItself(tabURL);
      NothingCloses(tabs, tabs[keep]);
      UseIsTabs();
      EvictionKeeps(tabUse, safe, limit);
      hide Safe, Limit, KioskConfig.PreloadIndexes, Distinct, Evicted, Part, Closes, Matched, Separate, NoneOf;
      ghost var goal := Evicted(tabUse, safe, limit);
      while |tabUse| > limit
        invariant Consistent() && keep in tabs
        invariant goal == Evicted(tabUse, safe, limit)
        invariant Part(tabs, old(tabs)) && Part(tabURL, old(tabURL))
        invariant Closes(old(tabs), tabs, closed, tabs[keep])
        decreases |tabUse|
      {
        var victim := Victim(tabUse, safe);
        if victim < 0 { break; }
        EvictOne(tabUse, safe, limit);
        closed := CloseAt(victim, keep, closed, old(tabs), old(tabURL));
      }
      EvictionDone(tabUse, safe, limit);
      KeptStayOpen(old(tabs), tabs, closed, tabs[keep]);
      UseIsTabs();
      ghost var base := insertBase;
      assert insertTab ==> base in safe && base in tabs;
    }

    /** Books page index into tab id as the most recently used. A new tab, or one
        whose page address was edited, is marked for navigation. */
    method BookTab(k: KioskConfig, index: int, id: string, created: bool)
      requires Valid() && Own(index, id)
      modifies this`tabs, this`tabURL, this`tabUse, this`pendingBlank, this`revealTarget
      ensures Valid() && tabs == old(tabs)[index := id] && tabURL == old(tabURL)[index := k.ActiveURL(index)]
      ensures tabUse == Touched(old(tabUse), index)
      ensures pendingBlank == Marked(old(pendingBlank), old(tabURL), index, id, created, k.ActiveURL(index))
      ensures forall other :: other in pendingBlank <==>
        (other in old(pendingBlank) || (other == id && (created || index !in old(tabURL) || old(tabURL)[index] != tabURL[index])))
      ensures revealTarget == if created then id else ""
    {
      MarkedExactly(pendingBlank, tabURL, index, id, created, k.ActiveURL(index));
      hide *;
      ValidParts(index, id);
      var want := k.ActiveURL(index);
      var booked, urls := tabs[index := id], tabURL[index := want];
      MatchedTouched(tabUse, tabs, tabURL, index, id, want);
      tabs := booked;
      MarkForNavigation(index, id, created, want);
      tabURL := urls;
      TouchTab(index);
      ValidNow();
    }

    method MarkForNavigation(index: int, id: string, created: bool, want: string)
      modifies this`pendingBlank, this`revealTarget
      ensures pendingBlank == Marked(old(pendingBlank), tabURL, index, id, created, want)
      ensures revealTarget == if created then id else ""
    {
      if created || index !in tabURL || tabURL[index] != want { pendingBlank := pendingBlank + {id}; }
      revealTarget := if created then id else "";
    }

    /** Books the page into its tab, then closes what has become too much. */
    method BookAndEvict(k: KioskConfig, index: int, id: string, created: bool) returns (closed: seq<string>)
      requires Valid() && Own(index, id)
      modifies this`tabs, this`tabURL, this`tabUse, this`pendingBlank, this`revealTarget
      ensures Valid() && index in tabs && tabs[index] == id && index in tabURL && tabURL[index] == k.ActiveURL(index)
      ensures pendingBlank == Marked(old(pendingBlank), old(tabURL), index, id, created, k.ActiveURL(index))
      ensures tabUse == Evicted(Touched(old(tabUse), index), old(Safe(k, index)), old(Limit(k)))
      ensures Part(tabs, old(tabs)[index := id]) && Closes(old(tabs)[index := id], tabs, closed, id) && NoneOf(closed, tabs)
      ensures KeepsSafe(old(tabs), tabs, old(Safe(k, index))) && WithinLimit(tabUse, old(Safe(k, index)), old(Limit(k)))
    {
      KeepsSafeBooked(tabs, index, id, Safe(k, index));
      hide *;
      BookTab(k, index, id, created);
      ghost var booked, urls := tabs, tabURL;
      closed := EvictTabs(k, index);
      assert tabs[index] == id by { SamePart(tabs, booked, index); }
      URLsBooked();
      assert tabURL[index] == k.ActiveURL(index) by { SamePart(tabURL, urls, index); }
    }

    /** The first half of a switch: the tab kept for the page if it could be
        activated, else one newly created, if that succeeded. */
    method ChooseTab(index: int, activated: bool, newID: string) returns (tab: Option<(string, bool)>)
      requires Valid() && (newID != "" ==> !InBooks(tabs, newID))
      ensures tab == if index in tabs && activated then Some((tabs[index], false))
                     else if newID != "" then Some((newID, true)) else None
      ensures tab.Some? ==> Own(index, tab.value.0)
    {
      var id := if index in tabs then tabs[index] else "";
      var created := false;
      if id != "" && !activated { id := ""; }
      if id == "" {
        if newID == "" { return None; }
        id, created := newID, true;
      }
      return Some((id, created));
    }

    /** The steps of a switch to tab id, freshly created or kept. */
    method Switched(k: KioskConfig, index: int, id: string, created: bool) returns (closed: seq<string>)
      requires Valid() && Own(index, id)
      modifies this
      ensures Valid() && activeTarget == id && retarget && index in tabs && tabs[index] == id
      ensures active == old(active) && insertTab == old(insertTab) && insertBase == old(insertBase)
      ensures index in tabURL && tabURL[index] == k.ActiveURL(index)
      ensures pendingBlank == Marked(old(pendingBlank), old(tabURL), index, id, created, k.ActiveURL(index))
      ensures tabUse == Evicted(Touched(old(tabUse), index), old(Safe(k, index)), old(Limit(k)))
      ensures Part(tabs, old(tabs)[index := id]) && Closes(old(tabs)[index := id], tabs, closed, id) && NoneOf(closed, tabs)
      ensures KeepsSafe(old(tabs), tabs, old(Safe(k, index))) && WithinLimit(tabUse, old(Safe(k, index)), old(Limit(k)))
      ensures UnderneathKept(old(tabUse), index, old(Safe(k, index)), old(Limit(k)), tabUse)
      ensures KeepsSafe(old(tabs), tabs, k.PreloadIndexes())
      ensures (insertTab || !k.tabMode) && insertBase in old(tabs) && insertBase != index ==>
        insertBase in tabs && tabs[insertBase] == old(tabs)[insertBase]
    {
      UseIsTabs();
      SafeHoldsPreloaded(k, index);
      ghost var was, base, safe := tabs, insertBase, Safe(k, index);
      hide *;
      Underneath(tabUse, index, Safe(k, index), Limit(k));
      closed := BookAndEvict(k, index, id, created);
      FewerSafe(was, tabs, k.PreloadIndexes(), safe);
      BaseUnchanged(was, tabs, index, id, base, safe);
      activeTarget, retarget := id, true;
    }

    /** The page is shown in tab id, freshly created or kept, and is the one most
        recently used. No tab of a page that keeps one is closed, in particular none
        of a preloaded page or of the page under an insert. */
    method SwitchTab(k: KioskConfig, index: int, id: string, created: bool) returns (closed: seq<string>)
      requires Valid() && Own(index, id)
      modifies this
      ensures Valid() && activeTarget == id && retarget && index in tabs && tabs[index] == id
      ensures active == old(active) && insertTab == old(insertTab) && insertBase == old(insertBase)
      ensures pendingBlank == Marked(old(pendingBlank), old(tabURL), index, id, created, k.ActiveURL(index))
      ensures tabUse == Evicted(Touched(old(tabUse), index), old(Safe(k, index)), old(Limit(k)))
      ensures Part(tabs, old(tabs)[index := id]) && Closes(old(tabs)[index := id], tabs, closed, id) && NoneOf(closed, tabs)
      ensures KeepsSafe(old(tabs), tabs, old(Safe(k, index))) && WithinLimit(tabUse, old(Safe(k, index)), old(Limit(k)))
      ensures UnderneathKept(old(tabUse), index, old(Safe(k, index)), old(Limit(k)), tabUse)
      ensures forall i :: 0 <= i < |Enabled(k.pages)| && Enabled(k.pages)[i].preload && i in old(tabs) ==> i in tabs
      ensures (insertTab || !k.tabMode) && insertBase in old(tabs) && insertBase != index ==>
        insertBase in tabs && tabs[insertBase] == old(tabs)[insertBase]
      ensures FewTabs(k, index, tabUse, insertTab, insertBase) && OnlyExcess(k, old(tabUse), tabUse)
      ensures tabUse != [] && tabUse[|tabUse| - 1] == index
      ensures 0 <= index < |Enabled(k.pages)| ==> index in tabURL && tabURL[index] == TrimSpace(Enabled(k.pages)[index].url)
    {
      SafeMeans(k, index);
      EnabledAddress(k, index);
      LeavesFew(k, index, tabUse, insertTab, insertBase, Safe(k, index), Limit(k));
      ghost var was, kept := tabs, Evicted(Touched(tabUse, index), Safe(k, index), Limit(k));
      hide *;
      closed := Switched(k, index, id, created);
      assert tabUse == kept;
      PreloadedStay(k, was, tabs);
    }

    /** The second half of preloading a page: the first half found it without a
        tab, but the mutex was released in between. The books stay consistent
        exactly when it still has none. Without a target nothing happens. */
    method PreloadTab(k: KioskConfig, index: int, id: string)
      requires Valid() && !InBooks(tabs, id)
      modifies this`tabs, this`tabURL, this`tabUse
      ensures id == "" ==> Books() == old(Books()) && Valid()
      ensures id != "" ==> tabs == old(tabs)[index := id] && tabUse == [index] + old(tabUse)
      ensures id != "" ==> (Valid() <==> index !in old(tabs))
    {
      if id == "" { return; }
      hide KioskConfig.ActiveURL, Separate, Matched, InBooks;
      SeparateBooked(tabs, index, id);
      MatchedFirst(tabUse, tabs, tabURL, index, id, k.ActiveURL(index));
      tabs, tabURL := tabs[index := id], tabURL[index := k.ActiveURL(index)];
      tabUse := [index] + tabUse;
    }

    /** Whether another page is to be shown in a tab of its own. */
    predicate Switches(k: KioskConfig, index: int, insert: bool)
      reads this`active, this`insertTab, this`activeTarget
    {
      !k.isolateSessions && active != index && (k.tabMode || insertTab || (insert && activeTarget != ""))
    }

    /** The first half of preloading a page, in a lock section of its own. */
    method PreloadCheck(index: int) returns (open: bool)
      ensures open <==> index in tabs
    {
      open := index in tabs;
    }

    /** The race: the page is shown between the two halves. Afterwards the books
        are consistent exactly when it had a tab before, so that the second half
        did not run; else it has two places in the order of use. */
    method SwitchDuringPreload(k: KioskConfig, index: int, shown: string, id: string)
      requires Valid() && shown != "" && id != "" && !InBooks(tabs, shown) && !InBooks(tabs, id) && id != shown
      modifies this
      ensures Valid() <==> index in old(tabs)
      ensures index !in old(tabs) ==> index in tabs && tabs[index] == id && |tabUse| >= 2 && tabUse[0] == index && index in tabUse[1..]
    {
      hide FewTabs, OnlyExcess, KioskConfig.ActiveURL, Safe, Limit, Evicted, Touched, UnderneathKept, Closes, KeepsSafe, WithinLimit, Separate, NoneOf;
      var open := PreloadCheck(index);
      ghost var was := tabs;
      assert forall page <- was :: InBooks(was, was[page]);
      var closed := SwitchTab(k, index, shown, true);
      PartValues(tabs, was[index := shown], id);
      hide Part;
      UseIsTabs();
      hide Matched, Distinct;
      if !open { PreloadTab(k, index, id); }
    }

    /** The switch itself, and in navigate mode what it means for the insert. */
    method ShowInTab(k: KioskConfig, index: int, insert: bool, activated: bool, newID: string)
      returns (tab: Option<(string, bool)>, closed: set<string>)
      requires Valid() && (newID != "" ==> !InBooks(tabs, newID))
      requires !k.tabMode ==> activeTarget != "" && insertBase in tabs
      modifies this
      ensures Valid() && active == old(active) && insertBase == old(insertBase)
      ensures (tab.None? ==> newID == "") && (tab.Some? && tab.value.1 ==> tab.value.0 == newID)
      ensures tab.Some? && !tab.value.1 ==> activated && index in old(tabs) && tab.value.0 == old(tabs)[index]
      ensures activeTarget == if tab.Some? then tab.value.0 else old(activeTarget)
      ensures tab.Some? && (k.tabMode || insert) ==> index in tabs && tabs[index] == tab.value.0
      ensures insertTab == if k.tabMode then old(insertTab) else insert && tab.Some?
      ensures !k.tabMode && !insertTab ==> tabs.Keys == {index}
      ensures insertTab && insertBase != index ==> insertBase in tabs && insertBase in old(tabs) && tabs[insertBase] == old(tabs)[insertBase]
      ensures activeTarget !in closed && forall page <- tabs :: tabs[page] !in closed
    {
      hide FewTabs, OnlyExcess, Separate, Own, Part, Closes, KeepsSafe, WithinLimit, UnderneathKept, Safe, Limit, Evicted, Touched, KioskConfig.ActiveURL, InBooks;
      closed := {};
      tab := ChooseTab(index, activated, newID);
      if tab.Some? {
        var evicted := SwitchTab(k, index, tab.value.0, tab.value.1);
        closed := set target | target in evicted;
      }
      hide Matched;
      if !k.tabMode {
        if insert && tab.Some? {
          insertTab := true;
        } else {
          var closing := CloseOtherTabs(k, index);
          closed := closed + closing;
        }
      }
    }

    /** The bookkeeping of showing a page while the browser runs: `activated` is
        whether Chromium could activate a kept tab, `newID` the target of a new one
        or empty. `tab` is the tab chosen, none if the tab on screen had to be
        navigated instead; `closed` are the tabs to close. */
    method ShowPage(k: KioskConfig, index: int, insert: bool, activated: bool, newID: string)
      returns (tab: Option<(string, bool)>, closed: set<string>)
      requires Valid() && (newID != "" ==> !InBooks(tabs, newID) && newID != activeTarget)
      modifies this
      ensures Valid() && active == index
      ensures !old(Switches(k, index, insert)) ==> tab == None && closed == {}
      ensures !old(Switches(k, index, insert)) ==>
        Books() == old(Books()) && activeTarget == old(activeTarget) && insertTab == old(insertTab) && insertBase == old(insertBase)
      ensures old(Switches(k, index, insert)) ==> (tab.None? ==> newID == "") && (tab.Some? && tab.value.1 ==> tab.value.0 == newID)
      ensures tab.Some? && !tab.value.1 ==> activated && index in old(tabs) && tab.value.0 == old(tabs)[index]
      ensures tab.Some? ==> activeTarget == tab.value.0
      ensures tab.Some? && (k.tabMode || insert) ==> index in tabs && tabs[index] == tab.value.0
      ensures old(Switches(k, index, insert)) && !k.tabMode ==> (insertTab <==> insert && tab.Some?)
      ensures old(Switches(k, index, insert)) && !k.tabMode && !insertTab && activeTarget != "" ==> tabs.Keys == {index}
      ensures k.tabMode ==> insertTab == old(insertTab)
      ensures tab.None? ==> activeTarget == old(activeTarget)
      ensures insertTab && !old(insertTab) ==> insert && !k.tabMode
      ensures insertTab && !old(insertTab) ==> insertBase == old(active) && tabs[insertBase] == old(activeTarget)
      ensures insertTab && old(insertTab) ==> insertBase == old(insertBase)
      ensures insertTab && old(insertTab) && insertBase != index ==> tabs[insertBase] == old(tabs[insertBase])
      ensures !insert && !k.tabMode && !k.isolateSessions && old(active) != index && old(insertTab) ==> !insertTab
      ensures activeTarget !in closed && forall page <- tabs :: tabs[page] !in closed
    {
      hide Separate, Matched, InBooks, KioskConfig.ActiveURL;
      var previous := active;
      active := index;
      tab, closed := None, {};
      var own := insertTab;
      if !k.isolateSessions && !k.tabMode && insert && !insertTab && previous != index {
        OnlyOne(previous, activeTarget, newID);
        own := KeepTabForInsert(k, previous);
      }
      if !k.isolateSessions && (k.tabMode || own) && previous != index {
        tab, closed := ShowInTab(k, index, insert, activated, newID);
      }
    }
  }

  lemma OnlyOne(page: int, target: string, id: string)
    ensures id != target ==> !InBooks(map[page := target], id)
  {
  }

  lemma PartItself(a: map<int, string>)
    ensures Part(a, a)
  {
  }

  lemma NothingCloses(a: map<int, string>, shown: string)
    ensures Closes(a, a, [], shown)
  {
  }

  lemma PartStep(before: map<int, string>, after: map<int, string>, index: int)
    requires Part(after, before)
    ensures Part(after - {index}, before)
  {
  }

  /** Forgetting one more page than the shown one and closing its target. */
  lemma CloseStep(before: map<int, string>, after: map<int, string>, closed: seq<string>, index: int, keep: int)
    requires index in after && keep in after && index != keep
    requires Part(after, before) && Closes(before, after, closed, after[keep])
    ensures Part(after - {index}, before)
    ensures Closes(before, after - {index},
      if after[index] != "" && after[index] != after[keep] then closed + [after[index]] else closed, after[keep])
  {
    var fewer := after - {index};
    assert index in before && index !in fewer && before[index] == after[index];
    forall target <- closed ensures exists i <- before :: i !in fewer && before[i] == target {
      var i :| i in before && i !in after && before[i] == target;
      assert i !in fewer;
    }
  }

  lemma SamePart(a: map<int, string>, b: map<int, string>, index: int)
    requires Part(a, b) && index in a
    ensures index in b && a[index] == b[index]
  {
  }

  /** Every page has a tab of its own. */
  ghost predicate Separate(tabs: map<int, string>) {
    && (forall page <- tabs :: tabs[page] != "")
    && forall p, q :: p in tabs && q in tabs && p != q ==> tabs[p] != tabs[q]
  }

  predicate InBooks(tabs: map<int, string>, id: string) {
    exists page <- tabs :: tabs[page] == id
  }

  lemma SeparateBooked(tabs: map<int, string>, index: int, id: string)
    requires Separate(tabs) && id != ""
    ensures index !in tabs ==> (Separate(tabs[index := id]) <==> !InBooks(tabs, id))
    ensures !InBooks(tabs, id) ==> Separate(tabs[index := id])
  {
    var more := tabs[index := id];
    if InBooks(tabs, id) {
      var page :| page in tabs && tabs[page] == id;
      assert index !in tabs ==> more[page] == more[index] && page != index;
    } else {
      assert forall page <- tabs :: InBooks(tabs, tabs[page]);
    }
  }

  lemma OwnBooked(tabs: map<int, string>, index: int, id: string)
    requires Separate(tabs) && id != "" && forall page <- tabs :: page != index ==> tabs[page] != id
    ensures Separate(tabs[index := id])
  {
  }

  /** None of the targets is a booked one. */
  ghost predicate NoneOf(closed: seq<string>, tabs: map<int, string>) {
    forall page <- tabs :: tabs[page] !in closed
  }

  /** Where every page has a tab of its own, closing those of forgotten pages
      closes none that is kept. */
  lemma KeptStayOpen(before: map<int, string>, after: map<int, string>, closed: seq<string>, shown: string)
    requires Separate(before) && Part(after, before) && Closes(before, after, closed, shown)
    ensures Separate(after) && NoneOf(closed, after)
  {
    assert forall page <- after :: page in before && before[page] == after[page];
  }

  lemma PreloadedStay(k: KioskConfig, before: map<int, string>, after: map<int, string>)
    requires KeepsSafe(before, after, k.PreloadIndexes())
    ensures forall i :: 0 <= i < |Enabled(k.pages)| && Enabled(k.pages)[i].preload && i in before ==> i in after
  {
  }

  /** The address shown for an enabled page is its own. */
  lemma EnabledAddress(k: KioskConfig, index: int)
    ensures 0 <= index < |Enabled(k.pages)| ==> k.ActiveURL(index) == TrimSpace(Enabled(k.pages)[index].url)
  {
  }

  lemma FewerSafe(before: map<int, string>, after: map<int, string>, fewer: set<int>, safe: set<int>)
    requires KeepsSafe(before, after, safe) && fewer <= safe
    ensures KeepsSafe(before, after, fewer)
  {
  }

  lemma BaseUnchanged(before: map<int, string>, after: map<int, string>, index: int, id: string, base: int, safe: set<int>)
    requires Part(after, before[index := id]) && KeepsSafe(before, after, safe)
    ensures base in before && base in safe && base != index ==> base in after && after[base] == before[base]
  {
  }

  lemma PartValues(after: map<int, string>, before: map<int, string>, id: string)
    requires Part(after, before) && !InBooks(before, id)
    ensures !InBooks(after, id)
  {
    forall page <- after ensures after[page] != id { assert InBooks(before, before[page]); }
  }

  /** Three tabs unless configured otherwise, two in a low-power profile; where the
      page under an insert has one, two at least; more only for the page shown, the
      one under an insert and preloaded ones. */
  ghost predicate FewTabs(k: KioskConfig, shown: int, use: seq<int>, insertTab: bool, insertBase: int) {
    var limit := if 1 <= k.maxTabs <= 8 then k.maxTabs else if k.lowPower then 2 else 3;
    || |use| <= limit
    || (|use| == 2 && (insertTab || !k.tabMode))
    || forall page <- use ::
         || page == shown
         || (0 <= page < |Enabled(k.pages)| && Enabled(k.pages)[page].preload)
         || (page == insertBase && (insertTab || !k.tabMode))
  }

  /** A page lost its tab only if as many tabs as configured are left. */
  ghost predicate OnlyExcess(k: KioskConfig, before: seq<int>, use: seq<int>) {
    (exists page <- before :: page !in use) ==>
      |use| >= if 1 <= k.maxTabs <= 8 then k.maxTabs else if k.lowPower then 2 else 3
  }

  lemma LimitKept(k: KioskConfig, shown: int, use: seq<int>, insertTab: bool, insertBase: int, safe: set<int>, limit: nat)
    requires WithinLimit(use, safe, limit)
    requires safe == {shown} + k.PreloadIndexes() + if insertTab || !k.tabMode then {insertBase} else {}
    requires limit == if (insertTab || !k.tabMode) && MaxTabs(k) < 2 then 2 else MaxTabs(k)
    ensures FewTabs(k, shown, use, insertTab, insertBase)
  {
  }

  lemma LeavesFew(k: KioskConfig, shown: int, use: seq<int>, insertTab: bool, insertBase: int, safe: set<int>, limit: nat)
    requires Distinct(use)
    requires safe == {shown} + k.PreloadIndexes() + if insertTab || !k.tabMode then {insertBase} else {}
    requires limit == if (insertTab || !k.tabMode) && MaxTabs(k) < 2 then 2 else MaxTabs(k)
    ensures var kept := Evicted(Touched(use, shown), safe, limit);
      FewTabs(k, shown, kept, insertTab, insertBase) && OnlyExcess(k, use, kept) && kept != [] && kept[|kept| - 1] == shown
  {
    hide Evicted, Touched, FewTabs;
    TouchedDistinct(use, shown);
    EvictionIsFair(Touched(use, shown), safe, limit);
    EvictionKeeps(Touched(use, shown), safe, limit);
    LimitKept(k, shown, Evicted(Touched(use, shown), safe, limit), insertTab, insertBase, safe, limit);
    EvictedLast(use, shown, safe, limit);
  }

  /** Protected pages keep their tabs. */
  ghost predicate KeepsSafe(before: map<int, string>, after: map<int, string>, safe: set<int>) {
    forall page <- before :: page in safe ==> page in after
  }

  ghost predicate WithinLimit(use: seq<int>, safe: set<int>, limit: nat) {
    |use| <= limit || forall page <- use :: page in safe
  }

  lemma KeepsSafeBooked(before: map<int, string>, index: int, id: string, safe: set<int>)
    ensures forall after :: KeepsSafe(before[index := id], after, safe) ==> KeepsSafe(before, after, safe)
  {
    assert forall page <- before :: page in before[index := id];
  }

  ghost predicate Part(a: map<int, string>, b: map<int, string>) {
    forall index <- a :: index in b && a[index] == b[index]
  }

  /** The closed targets are exactly those of forgotten pages, except the one
      shown. */
  ghost predicate Closes(before: map<int, string>, after: map<int, string>, closed: seq<string>, shown: string) {
    && (forall target <- closed :: target != "" && target != shown)
    && (forall target <- closed :: exists index <- before :: index !in after && before[index] == target)
    && forall index <- before :: index !in after ==>
         before[index] in closed || before[index] == "" || before[index] == shown
  }
}
