/** Moving and removing pages in the Admin UI, which must not repoint the
    rotation items and time rules that count enabled pages. */
module PageOrder {
  import opened Text
  import opened Config

  /** The browser's idea of an enabled page: any non-empty address. */
  predicate IsListed(page: KioskPage) { !page.disabled && page.url != "" }

  /** How many listed pages there are below position n. */
  function Count(pages: seq<KioskPage>, n: nat): (r: nat)
    requires n <= |pages|
    ensures r <= n
  {
    if n == 0 then 0 else Count(pages, n - 1) + if IsListed(pages[n - 1]) then 1 else 0
  }

  /** The position of listed page number e. */
  function Position(pages: seq<KioskPage>, n: nat, e: nat): (r: nat)
    requires n <= |pages| && e < Count(pages, n)
    ensures r < n && IsListed(pages[r]) && Count(pages, r) == e
  {
    if IsListed(pages[n - 1]) && Count(pages, n - 1) == e then n - 1 else Position(pages, n - 1, e)
  }

  lemma {:induction false} CountGrows(pages: seq<KioskPage>, a: nat, b: nat)
    requires a <= b <= |pages|
    ensures Count(pages, a) <= Count(pages, b)
    ensures a < b && IsListed(pages[a]) ==> Count(pages, a) < Count(pages, b)
  {
    if a < b { CountGrows(pages, a, b - 1); }
  }

  /** No two listed pages have the same number. */
  lemma CountsDiffer(pages: seq<KioskPage>, a: nat, b: nat)
    requires a < |pages| && b < |pages| && IsListed(pages[a]) && IsListed(pages[b])
    requires Count(pages, a) == Count(pages, b)
    ensures a == b
  {
    if a < b { CountGrows(pages, a, b); }
    if b < a { CountGrows(pages, b, a); }
  }

  // ------------------------------------------------------------ the remapping

  /** `order` gives, for each new position, the old position of its page. */
  ghost predicate IsOrder(order: seq<int>, n: nat) {
    Distinct(order) && forall o <- order :: 0 <= o < n
  }

  function Reordered(pages: seq<KioskPage>, order: seq<int>): (r: seq<KioskPage>)
    requires forall o <- order :: 0 <= o < |pages|
    ensures |r| == |order|
  {
    seq(|order|, i requires 0 <= i < |order| => assert order[i] in order; pages[order[i]])
  }

  function IndexOf(order: seq<int>, o: int): (r: nat)
    requires o in order
    ensures r < |order| && order[r] == o
  {
    if order[0] == o then 0 else IndexOf(order[1..], o) + 1
  }

  lemma {:induction false} IndexOfElement(order: seq<int>, i: nat)
    requires Distinct(order) && i < |order|
    ensures IndexOf(order, order[i]) == i
  {
    if i > 0 {
      assert order[1..][i - 1] == order[i];
      IndexOfElement(order[1..], i - 1);
    }
  }

  /** The position of the page a reference counts to, -1 when there is none. */
  function Home(pages: seq<KioskPage>, page: int): int {
    if 0 <= page < Count(pages, |pages|) then Position(pages, |pages|, page) else -1
  }

  lemma HomeOf(pages: seq<KioskPage>, at: nat, page: int)
    requires at < |pages|
    ensures Home(pages, page) == at <==> IsListed(pages[at]) && page == Count(pages, at)
  {
    CountGrows(pages, at, |pages|);
    if IsListed(pages[at]) && page == Count(pages, at) { CountsDiffer(pages, at, Home(pages, page)); }
  }

  /** The number of the same page afterwards; 0 when it is gone or never was. */
  function Remapped(pages: seq<KioskPage>, order: seq<int>, page: int): int
    requires forall o <- order :: 0 <= o < |pages|
  {
    if Home(pages, page) in order then Count(Reordered(pages, order), IndexOf(order, Home(pages, page))) else 0
  }

  /** A reference whose page survives names that very page afterwards. */
  lemma SurvivorsKeepTheirReferences(pages: seq<KioskPage>, order: seq<int>, page: int)
    requires IsOrder(order, |pages|) && Home(pages, page) in order
    ensures var now := Reordered(pages, order);
      var home := Home(now, Remapped(pages, order, page));
      0 <= home < |now| && order[home] == Home(pages, page) && now[home] == pages[Home(pages, page)]
  {
    var now, at := Reordered(pages, order), IndexOf(order, Home(pages, page));
    HomeOf(now, at, Count(now, at));
  }

  class Kiosk {
    var pages: seq<KioskPage>
    var rotation: seq<RotationItem>
    var timeRules: seq<TimeRule>
    var inserts: seq<PageInsert>
    var urls: seq<string>

    /** The plain list of addresses that goes with the pages. */
    method SyncKioskURLs()
      modifies this`urls
      ensures urls == Addresses(pages)
    {
      urls := [];
      var kept := pages;
      for i := 0 to |kept|
        invariant kept == pages && urls == Addresses(kept[..i])
      {
        assert kept[..i + 1][..i] == kept[..i];
        if !kept[i].disabled && kept[i].url != "" { urls := urls + [kept[i].url]; }
      }
      assert kept[..|kept|] == kept;
    }

    /** The lists that count pages, each entry but for its page as before. */
    ghost predicate Follows(wasRotation: seq<RotationItem>, wasRules: seq<TimeRule>, was: seq<KioskPage>, order: seq<int>)
      requires forall o <- order :: 0 <= o < |was|
      reads `rotation, `timeRules
    {
      && |rotation| == |wasRotation| && |timeRules| == |wasRules|
      && (forall i :: 0 <= i < |rotation| ==>
            rotation[i] == wasRotation[i].(page := Remapped(was, order, wasRotation[i].page)))
      && (forall i :: 0 <= i < |timeRules| ==>
            timeRules[i] == wasRules[i].(page := Remapped(was, order, wasRules[i].page)))
    }

    method MovePage(index: int, direction: int)
      modifies this
      ensures inserts == old(inserts)
      ensures var n, next := |old(pages)|, index + direction;
        if 0 <= index < n && 0 <= next < n then
          var order := Swapped(n, index, next);
          pages == old(pages)[index := old(pages)[next]][next := old(pages)[index]]
          && pages == Reordered(old(pages), order)
          && Follows(old(rotation), old(timeRules), old(pages), order)
          && urls == Addresses(pages)
        else pages == old(pages) && rotation == old(rotation) && timeRules == old(timeRules) && urls == old(urls)
    {
      var was, next := pages, index + direction;
      if index < 0 || next < 0 || index >= |was| || next >= |was| { return; }
      var order := Swapped(|was|, index, next);
      pages := Reordered(was, order);
      RemapPageIndexes(order, was);
      SyncKioskURLs();
    }

    method RemovePage(index: int)
      modifies this
      ensures pages == if 0 <= index < |old(pages)| then old(pages)[..index] + old(pages)[index + 1..] else old(pages)
      ensures var order := AllBut(|old(pages)|, index);
        pages == Reordered(old(pages), order) && Follows(old(rotation), old(timeRules), old(pages), order)
      ensures inserts == if 0 <= index < |old(pages)| && old(pages)[index].pageID != ""
        then InsertsWithout(old(inserts), old(pages)[index].pageID) else old(inserts)
      ensures 0 <= index < |old(pages)| && old(pages)[index].pageID != "" ==>
        OthersStay(old(inserts), inserts, old(pages)[index].pageID)
      ensures urls == Addresses(pages)
    {
      hide OthersStay, InsertsWithout, Follows, Addresses, Remapped;
      var was := pages;
      if 0 <= index < |was| && was[index].pageID != "" {
        OnlyTheirs(inserts, was[index].pageID);
        inserts := InsertsWithout(inserts, was[index].pageID);
      }
      var order := AllBut(|was|, index);
      pages := Reordered(was, order);
      RemapPageIndexes(order, was);
      SyncKioskURLs();
    }

    /** Three passes: number the listed pages as they were, find each again at
        its new place, rewrite the references. */
    method RemapPageIndexes(order: seq<int>, was: seq<KioskPage>)
      requires IsOrder(order, |was|) && pages == Reordered(was, order)
      modifies `rotation, `timeRules
      ensures Follows(old(rotation), old(timeRules), was, order)
    {
      var byPosition := NumberListed(was);
      var moved := FindAgain(pages, order, was, byPosition);
      hide IsOrder, Remapped, Reordered;
      rotation := seq(|rotation|, i requires 0 <= i < |rotation| reads this =>
        rotation[i].(page := if rotation[i].page in moved then moved[rotation[i].page] else 0));
      timeRules := seq(|timeRules|, i requires 0 <= i < |timeRules| reads this =>
        timeRules[i].(page := if timeRules[i].page in moved then moved[timeRules[i].page] else 0));
    }
  }

  /** The addresses of the listed pages, in order. */
  function Addresses(pages: seq<KioskPage>): seq<string> {
    if pages == [] then []
    else
      var last := pages[|pages| - 1];
      Addresses(pages[..|pages| - 1]) + if IsListed(last) then [last.url] else []
  }

  /** They run in step with the numbers that references count. */
  lemma {:induction false} AddressesFollowNumbers(pages: seq<KioskPage>, n: nat)
    requires n <= |pages|
    ensures |Addresses(pages[..n])| == Count(pages, n)
    ensures forall e :: 0 <= e < Count(pages, n) ==> Addresses(pages[..n])[e] == pages[Position(pages, n, e)].url
  {
    if n > 0 {
      AddressesFollowNumbers(pages, n - 1);
      assert pages[..n][..n - 1] == pages[..n - 1];
    }
  }

  method NumberListed(was: seq<KioskPage>) returns (byPosition: map<int, int>)
    ensures forall a :: a in byPosition <==> 0 <= a < |was| && IsListed(was[a])
    ensures forall a :: a in byPosition ==> byPosition[a] == Count(was, a)
  {
    byPosition := map[];
    var enabled := 0;
    for a := 0 to |was|
      invariant enabled == Count(was, a)
      invariant forall o :: o in byPosition <==> 0 <= o < a && IsListed(was[o])
      invariant forall o :: o in byPosition ==> byPosition[o] == Count(was, o)
    {
      if !was[a].disabled && was[a].url != "" {
        byPosition := byPosition[a := enabled];
        enabled := enabled + 1;
      }
    }
  }

  /** The pages found again among the first n new positions. */
  ghost predicate Found(moved: map<int, int>, was: seq<KioskPage>, order: seq<int>, n: nat)
    requires IsOrder(order, |was|) && n <= |order|
  {
    && (forall page :: page in moved <==> Home(was, page) in order[..n])
    && (forall page :: page in moved ==> moved[page] == Remapped(was, order, page))
  }

  lemma FindOne(moved: map<int, int>, was: seq<KioskPage>, order: seq<int>, n: nat)
    requires IsOrder(order, |was|) && n < |order| && Found(moved, was, order, n)
    ensures 0 <= order[n] < |was| && Reordered(was, order)[n] == was[order[n]]
    ensures !IsListed(was[order[n]]) ==> Found(moved, was, order, n + 1)
    ensures IsListed(was[order[n]]) ==>
      Found(moved[Count(was, order[n]) := Count(Reordered(was, order), n)], was, order, n + 1)
  {
    assert order[n] in order;
    assert order[..n + 1] == order[..n] + [order[n]];
    forall page ensures Home(was, page) == order[n] <==> IsListed(was[order[n]]) && page == Count(was, order[n]) {
      HomeOf(was, order[n], page);
    }
    IndexOfElement(order, n);
    hide Home, Count, IndexOf;
  }

  method FindAgain(now: seq<KioskPage>, order: seq<int>, was: seq<KioskPage>, byPosition: map<int, int>)
    returns (moved: map<int, int>)
    requires IsOrder(order, |was|) && now == Reordered(was, order)
    requires forall a :: a in byPosition <==> 0 <= a < |was| && IsListed(was[a])
    requires forall a :: a in byPosition ==> byPosition[a] == Count(was, a)
    ensures forall page: int :: (if page in moved then moved[page] else 0) == Remapped(was, order, page)
  {
    moved := map[];
    var enabled := 0;
    assert Found(moved, was, order, 0);
    for n := 0 to |now|
      invariant enabled == Count(now, n)
      invariant Found(moved, was, order, n)
    {
      FindOne(moved, was, order, n);
      if !now[n].disabled && now[n].url != "" {
        if order[n] in byPosition { moved := moved[byPosition[order[n]] := enabled]; }
        enabled := enabled + 1;
      }
      hide Found;
    }
    assert order[..|order|] == order;
  }

  function Swapped(n: nat, a: nat, b: nat): (r: seq<int>)
    requires a < n && b < n
    ensures IsOrder(r, n) && |r| == n
    ensures forall i :: 0 <= i < n ==> r[i] == if i == a then b else if i == b then a else i
  {
    seq(n, i => if i == a then b else if i == b then a else i)
  }

  function AllBut(n: nat, index: int): (r: seq<int>)
    ensures IsOrder(r, n) && |r| == if 0 <= index < n then n - 1 else n
    ensures forall k :: 0 <= k < |r| ==> r[k] == if 0 <= index <= k then k + 1 else k
  {
    if n == 0 then []
    else
      var r := AllBut(n - 1, index);
      r + if n - 1 == index then [] else [n - 1]
  }

  function InsertsWithout(inserts: seq<PageInsert>, removed: string): seq<PageInsert> {
    if inserts == [] then []
    else (if inserts[0].pageID == removed then [] else [inserts[0]]) + InsertsWithout(inserts[1..], removed)
  }

  /** The inserts of the page are gone, all others are there as often as before. */
  ghost predicate OthersStay(before: seq<PageInsert>, after: seq<PageInsert>, removed: string) {
    forall p :: multiset(after)[p] == if p.pageID == removed then 0 else multiset(before)[p]
  }

  lemma {:induction false} OnlyTheirs(inserts: seq<PageInsert>, removed: string)
    ensures OthersStay(inserts, InsertsWithout(inserts, removed), removed)
  {
    if inserts != [] {
      OnlyTheirs(inserts[1..], removed);
      assert inserts == [inserts[0]] + inserts[1..];
    }
  }

  // ----------------------------------------------------------- the theorems

  /** After a move every reference names the page it named before. */
  lemma MoveKeepsEveryReference(pages: seq<KioskPage>, a: nat, b: nat, page: nat)
    requires a < |pages| && b < |pages| && page < Count(pages, |pages|)
    ensures var order := Swapped(|pages|, a, b);
      var now := Reordered(pages, order);
      var home := Home(now, Remapped(pages, order, page));
      0 <= home < |now| && order[home] == Home(pages, page) && now[home] == pages[Home(pages, page)]
  {
    var order, home := Swapped(|pages|, a, b), Home(pages, page);
    assert order[if home == a then b else if home == b then a else home] == home;
    SurvivorsKeepTheirReferences(pages, order, page);
  }

  /** After a removal every other reference names the page it named before, and
      references to the removed page or to none become 0. */
  lemma RemoveKeepsTheOthers(pages: seq<KioskPage>, index: int, page: int)
    ensures var order := AllBut(|pages|, index);
      var now := Reordered(pages, order);
      var home := Home(now, Remapped(pages, order, page));
      if 0 <= page < Count(pages, |pages|) && Home(pages, page) != index
      then 0 <= home < |now| && order[home] == Home(pages, page) && now[home] == pages[Home(pages, page)]
      else Remapped(pages, order, page) == 0
  {
    var order, home := AllBut(|pages|, index), Home(pages, page);
    if home >= 0 && home != index {
      assert order[if 0 <= index < home then home - 1 else home] == home;
      SurvivorsKeepTheirReferences(pages, order, page);
    }
  }

  /** The listed pages, as the browser counts them. */
  function ListedPages(pages: seq<KioskPage>, n: nat): (r: seq<KioskPage>)
    requires n <= |pages|
    ensures |r| == Count(pages, n)
  {
    if n == 0 then [] else ListedPages(pages, n - 1) + if IsListed(pages[n - 1]) then [pages[n - 1]] else []
  }

  lemma {:induction false} ListedAt(pages: seq<KioskPage>, n: nat, at: nat)
    requires at < n <= |pages| && IsListed(pages[at])
    ensures Count(pages, at) < Count(pages, n) && ListedPages(pages, n)[Count(pages, at)] == pages[at]
  {
    CountGrows(pages, at, n);
    if at < n - 1 { ListedAt(pages, n - 1, at); }
  }

  /** An address of blanks only, on a page that is not disabled. */
  predicate HasBlankAddress(page: KioskPage) { IsListed(page) && Blank(page.url) }

  /** The browser and the server count the same pages exactly when no page has
      an address of blanks only. */
  lemma CountsAgreeExactly(pages: seq<KioskPage>, n: nat)
    requires n <= |pages|
    ensures |Enabled(pages[..n])| <= Count(pages, n)
    ensures |Enabled(pages[..n])| == Count(pages, n) <==> forall i :: 0 <= i < n ==> !HasBlankAddress(pages[i])
    ensures ListedPages(pages, n) == Enabled(pages[..n]) <==> forall i :: 0 <= i < n ==> !HasBlankAddress(pages[i])
  {
    hide IsEnabled, IsListed, HasBlankAddress, Enabled, Count, ListedPages;
    CountsCompare(pages, n);
    if forall i :: 0 <= i < n ==> !HasBlankAddress(pages[i]) { ListedAreEnabled(pages, n); }
  }

  lemma {:induction false} CountsCompare(pages: seq<KioskPage>, n: nat)
    requires n <= |pages|
    ensures |Enabled(pages[..n])| <= Count(pages, n)
    ensures |Enabled(pages[..n])| == Count(pages, n) <==> forall i :: 0 <= i < n ==> !HasBlankAddress(pages[i])
  {
    if n > 0 {
      CountsCompare(pages, n - 1);
      OneMoreEnabled(pages, n - 1);
      EnabledIsListed(pages[n - 1]);
      hide IsEnabled, IsListed, HasBlankAddress, Enabled;
    }
  }

  lemma {:induction false} ListedAreEnabled(pages: seq<KioskPage>, n: nat)
    requires n <= |pages| && forall i :: 0 <= i < n ==> !HasBlankAddress(pages[i])
    ensures ListedPages(pages, n) == Enabled(pages[..n])
  {
    if n > 0 {
      ListedAreEnabled(pages, n - 1);
      OneMoreEnabled(pages, n - 1);
      EnabledIsListed(pages[n - 1]);
      hide IsEnabled, IsListed, HasBlankAddress, Enabled;
    }
  }

  lemma OneMoreEnabled(pages: seq<KioskPage>, n: nat)
    requires n < |pages|
    ensures Enabled(pages[..n + 1]) == Enabled(pages[..n]) + if IsEnabled(pages[n]) then [pages[n]] else []
  {
    hide IsEnabled;
    assert pages[..n + 1] == pages[..n] + [pages[n]];
    EnabledConcat(pages[..n], [pages[n]]);
  }

  lemma EnabledIsListed(page: KioskPage)
    ensures IsEnabled(page) <==> IsListed(page) && !HasBlankAddress(page)
  {
  }

  /** So the server shows the same pages as before the edit. */
  lemma ServerShowsTheSame(pages: seq<KioskPage>, order: seq<int>, page: nat)
    requires IsOrder(order, |pages|) && forall p <- pages :: !HasBlankAddress(p)
    requires page < |Enabled(pages)| && Home(pages, page) in order
    ensures var now, m := Reordered(pages, order), Remapped(pages, order, page);
      0 <= m < |Enabled(now)| && Enabled(now)[m] == Enabled(pages)[page]
  {
    var now, m := Reordered(pages, order), Remapped(pages, order, page);
    forall i | 0 <= i < |now| ensures now[i] in pages {
      assert order[i] in order && pages[order[i]] in pages;
    }
    hide IsEnabled, HasBlankAddress, IsListed, Reordered, Remapped, Home;
    ServerCounts(pages);
    ServerCounts(now);
    SurvivorsKeepTheirReferences(pages, order, page);
    NumberAtHome(pages, page);
    NumberAtHome(now, m);
  }

  lemma ServerCounts(pages: seq<KioskPage>)
    requires forall p <- pages :: !HasBlankAddress(p)
    ensures Enabled(pages) == ListedPages(pages, |pages|)
  {
    CountsAgreeExactly(pages, |pages|);
    assert pages[..|pages|] == pages;
  }

  lemma NumberAtHome(pages: seq<KioskPage>, page: int)
    requires Home(pages, page) >= 0
    ensures 0 <= page < Count(pages, |pages|) && ListedPages(pages, |pages|)[page] == pages[Home(pages, page)]
  {
    ListedAt(pages, |pages|, Home(pages, page));
  }

  // ---------------------------------------------------- saved configurations

  /** The address of a local page: `admin` is the scheme, host and port of the
      Admin server. */
  function LocalPageURL(admin: string, page: KioskPage): string {
    admin + "/local/" + page.pageID
  }

  function Localised(admin: string, page: KioskPage): KioskPage {
    if page.local then page.(url := LocalPageURL(admin, page)) else page
  }

  /** What is asked of a page's address before a configuration is saved; `valid`
      is the test for a web address. */
  predicate Acceptable(page: KioskPage, valid: string -> bool) {
    page.local || (if Blank(page.url) then page.disabled else valid(TrimSpace(page.url)))
  }

  method NormalizeLocalPages(admin: string, pages: seq<KioskPage>) returns (r: seq<KioskPage>)
    ensures |r| == |pages| && forall i :: 0 <= i < |r| ==> r[i] == Localised(admin, pages[i])
    ensures forall i :: 0 <= i < |r| ==>
      r[i] == pages[i].(url := if pages[i].local then admin + "/local/" + pages[i].pageID else pages[i].url)
  {
    r := [];
    for i := 0 to |pages|
      invariant |r| == i && forall j :: 0 <= j < i ==> r[j] == Localised(admin, pages[j])
    {
      var page := pages[i];
      if page.local { page := page.(url := LocalPageURL(admin, page)); }
      r := r + [page];
    }
  }

  method ValidatePages(pages: seq<KioskPage>, valid: string -> bool) returns (ok: bool)
    ensures ok <==> forall page <- pages :: Acceptable(page, valid)
    ensures ok <==> forall page <- pages ::
      page.local || if TrimSpace(page.url) == "" then page.disabled else valid(TrimSpace(page.url))
  {
    hide TrimSpace;
    for i := 0 to |pages|
      invariant forall j :: 0 <= j < i ==> Acceptable(pages[j], valid)
    {
      var page := pages[i];
      assert page in pages;
      if !page.local {
        if Blank(page.url) {
          if page.disabled { continue; }
          return false;
        }
        if !valid(TrimSpace(page.url)) { return false; }
      }
    }
    return true;
  }

  /** Saving normalises, then validates; what is saved has no address of blanks
      only on a page that is not disabled. */
  method SavePages(admin: string, pages: seq<KioskPage>, valid: string -> bool) returns (r: Result<seq<KioskPage>>)
    ensures r.Ok? ==> |r.value| == |pages| && forall i :: 0 <= i < |pages| ==> r.value[i] == Localised(admin, pages[i])
    ensures r.Ok? <==> forall page <- pages :: Acceptable(Localised(admin, page), valid)
    ensures r.Ok? ==> forall page <- r.value :: !HasBlankAddress(page)
  {
    hide Blank, TrimSpace;
    var saved := NormalizeLocalPages(admin, pages);
    var ok := ValidatePages(saved, valid);
    forall page | page in saved && Acceptable(page, valid) ensures !HasBlankAddress(page) {
      var i :| 0 <= i < |saved| && saved[i] == page;
      LocalAddress(admin, pages[i]);
    }
    forall i | 0 <= i < |pages| ensures saved[i] in saved && pages[i] in pages {}
    if !ok { return Err("kiosk page URL is required"); }
    return Ok(saved);
  }

  lemma LocalAddress(admin: string, page: KioskPage)
    ensures !Blank(LocalPageURL(admin, page))
  {
    var url := LocalPageURL(admin, page);
    assert url[|admin|] == '/';
    NotBlank(url, |admin|);
  }

  lemma NotBlank(s: string, at: nat)
    requires at < |s| && !IsSpace(s[at])
    ensures !Blank(s)
  {
    TrimLeftKeeps(s, at);
    var t :| 0 <= t < |TrimLeft(s)| && TrimLeft(s)[t] == s[at];
    TrimRightKeeps(TrimLeft(s), t);
  }

  lemma {:induction false} TrimLeftKeeps(s: string, at: nat)
    requires at < |s| && !IsSpace(s[at])
    ensures s[at] in TrimLeft(s)
  {
    if IsSpace(s[0]) { TrimLeftKeeps(s[1..], at - 1); } else { assert TrimLeft(s) == s; }
  }

  lemma {:induction false} TrimRightKeeps(s: string, at: nat)
    requires at < |s| && !IsSpace(s[at])
    ensures TrimRight(s) != ""
  {
    if IsSpace(s[|s| - 1]) { TrimRightKeeps(s[..|s| - 1], at); }
  }

  /** So for every saved configuration the server shows the same page after the
      edit, wherever the page survives. */
  lemma SavedPagesStayInPlace(saved: seq<KioskPage>, valid: string -> bool, admin: string, order: seq<int>, page: nat)
    requires forall p <- saved :: p == Localised(admin, p) && Acceptable(p, valid)
    requires IsOrder(order, |saved|) && page < |Enabled(saved)| && Home(saved, page) in order
    ensures var now, m := Reordered(saved, order), Remapped(saved, order, page);
      0 <= m < |Enabled(now)| && Enabled(now)[m] == Enabled(saved)[page]
  {
    forall p <- saved ensures !HasBlankAddress(p) {
      LocalAddress(admin, p);
    }
    ServerShowsTheSame(saved, order, page);
  }
}
