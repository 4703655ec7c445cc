/** Page identifiers: every page gets one, and no two pages share one. */
module PageIDs {
  import opened Text
  import opened Config
  import opened Clocks

  // ------------------------------------------------------- numbered names

  function Candidate(base: string, suffix: nat): string {
    base + "_" + Decimal(suffix)
  }

  lemma CandidatesDiffer(base: string, a: nat, b: nat)
    requires Candidate(base, a) == Candidate(base, b)
    ensures a == b
  {
    DecimalReadsBack(a);
    DecimalReadsBack(b);
    var n := |base + "_"|;
    assert Candidate(base, a)[n..] == Decimal(a) && Candidate(base, b)[n..] == Decimal(b);
  }

  /** The base itself when it is free, else the first free numbered name. The
      search ends for every finite set of used names. */
  method UniquePageID(base: string, used: set<string>) returns (id: string)
    ensures id !in used && (base != "" ==> id != "")
    ensures base !in used ==> id == base
    ensures base in used ==> exists s: nat :: 2 <= s && id == Candidate(base, s) && forall u: nat :: 2 <= u < s ==> Candidate(base, u) in used
  {
    if base !in used { return base; }
    var suffix := 2;
    ghost var left := used;
    while true
      invariant 2 <= suffix
      invariant forall u: nat :: 2 <= u < suffix ==> Candidate(base, u) in used
      invariant left <= used && forall u: nat :: suffix <= u && Candidate(base, u) in used ==> Candidate(base, u) in left
      decreases left
    {
      id := Candidate(base, suffix);
      if id !in used { return; }
      forall u: nat | suffix + 1 <= u ensures Candidate(base, u) != id {
        if Candidate(base, u) == id { CandidatesDiffer(base, u, suffix); }
      }
      left := left - {id};
      suffix := suffix + 1;
    }
  }

  // ------------------------------------------------------ names from texts

  predicate IsNameChar(c: char) {
    'a' <= c <= 'z' || '0' <= c <= '9'
  }

  /** Letters and digits in runs, single underscores between them. */
  predicate IsSlug(s: string) {
    && s != ""
    && (forall c <- s :: 'a' <= c <= 'z' || '0' <= c <= '9' || c == '_')
    && s[0] != '_' && s[|s| - 1] != '_'
    && forall i :: 0 <= i < |s| - 1 ==> s[i] != '_' || s[i + 1] != '_'
  }

  /** The letters and digits of a text, in order. */
  function Letters(s: string): string {
    if s == "" then ""
    else
      var c := s[|s| - 1];
      Letters(s[..|s| - 1]) + if 'a' <= c <= 'z' || '0' <= c <= '9' then [c] else []
  }

  lemma LettersAppend(s: string, c: char)
    ensures Letters(s + [c]) == Letters(s) + if IsNameChar(c) then [c] else []
  {
    assert (s + [c])[..|s|] == s;
  }

  ghost predicate Numbered(id: string, base: string) {
    id == base || exists s: nat :: id == Candidate(base, s)
  }

  function TrimUnderscores(s: string): string {
    if s != "" && s[0] == '_' then TrimUnderscores(s[1..])
    else if s != "" && s[|s| - 1] == '_' then TrimUnderscores(s[..|s| - 1])
    else s
  }

  /** The text so far as a slug, except that it may end in an underscore. */
  ghost predicate Building(builder: string, lastUnderscore: bool, text: string) {
    && (lastUnderscore <==> builder != "" && builder[|builder| - 1] == '_')
    && (builder != "" ==> builder[0] != '_')
    && (forall c <- builder :: IsNameChar(c) || c == '_')
    && (forall i :: 0 <= i < |builder| - 1 ==> builder[i] != '_' || builder[i + 1] != '_')
    && Letters(builder) == Letters(text)
    && (builder == "" <==> Letters(text) == "")
  }

  lemma BuildOne(builder: string, lastUnderscore: bool, text: string, c: char)
    requires Building(builder, lastUnderscore, text)
    ensures IsNameChar(c) ==> Building(builder + [c], false, text + [c])
    ensures !IsNameChar(c) && !lastUnderscore && |builder| > 0 ==> Building(builder + ['_'], true, text + [c])
    ensures !IsNameChar(c) && (lastUnderscore || |builder| == 0) ==> Building(builder, lastUnderscore, text + [c])
  {
    LettersAppend(text, c);
    LettersAppend(builder, c);
    LettersAppend(builder, '_');
    hide Letters;
  }

  lemma TrimEnds(s: string)
    requires s != "" && s[0] != '_'
    ensures s[|s| - 1] != '_' ==> TrimUnderscores(s) == s
    ensures |s| >= 2 && s[|s| - 1] == '_' && s[|s| - 2] != '_' ==> TrimUnderscores(s) == s[..|s| - 1]
  {
    if |s| >= 2 && s[|s| - 1] == '_' {
      var shorter := s[..|s| - 1];
      assert shorter[|shorter| - 1] == s[|s| - 2];
    }
  }

  /** strings.Trim of a built text drops at most the last underscore. */
  lemma TrimBuilt(builder: string, lastUnderscore: bool, text: string)
    requires Building(builder, lastUnderscore, text) && builder != ""
    ensures IsSlug(TrimUnderscores(builder)) && Letters(TrimUnderscores(builder)) == Letters(text)
  {
    hide Letters, TrimUnderscores;
    var n := |builder| - 1;
    TrimEnds(builder);
    assert builder == builder[..n] + [builder[n]];
    LettersAppend(builder[..n], builder[n]);
    Underscore();
    if lastUnderscore {
      assert n >= 1 && builder[n - 1] != '_';
      assert forall c <- builder[..n] :: c in builder;
    }
  }

  lemma Underscore()
    ensures !IsNameChar('_')
  {
  }

  lemma BuildNothing()
    ensures Building("", false, "")
  {
  }

  method Build(text: string) returns (builder: string)
    ensures exists lastUnderscore :: Building(builder, lastUnderscore, text)
  {
    hide Building, Letters, IsNameChar;
    var lastUnderscore := false;
    builder := "";
    BuildNothing();
    for i := 0 to |text|
      invariant Building(builder, lastUnderscore, text[..i])
    {
      BuildOne(builder, lastUnderscore, text[..i], text[i]);
      assert text[..i + 1] == text[..i] + [text[i]];
      if IsNameChar(text[i]) {
        builder, lastUnderscore := builder + [text[i]], false;
      } else if !lastUnderscore && |builder| > 0 {
        builder, lastUnderscore := builder + ['_'], true;
      }
    }
    assert text[..|text|] == text;
  }

  /** A slug of the title's letters and digits, or the page's number when there
      are none; numbered if need be. */
  ghost predicate Titled(id: string, name: string, index: nat) {
    var letters := Letters(Lower(TrimSpace(name)));
    if letters == "" then Numbered(id, "page_" + Decimal(index + 1))
    else exists slug :: IsSlug(slug) && Letters(slug) == letters && Numbered(id, slug)
  }

  /** The name a page without an identifier gets from its title. */
  method LegacyPageID(name: string, index: nat, used: set<string>) returns (id: string)
    ensures id !in used && id != ""
    ensures Titled(id, name, index)
  {
    hide Letters, Lower, TrimSpace, Decimal;
    var builder := Build(Lower(TrimSpace(name)));
    var base := TrimUnderscores(builder);
    if builder != "" {
      ghost var lastUnderscore :| Building(builder, lastUnderscore, Lower(TrimSpace(name)));
      TrimBuilt(builder, lastUnderscore, Lower(TrimSpace(name)));
    }
    hide Building, TrimUnderscores;
    if base == "" { base := "page_" + Decimal(index + 1); }
    id := UniquePageID(base, used);
  }

  // ----------------------------------------------------------- all pages

  function IDs(pages: seq<KioskPage>): seq<string> {
    seq(|pages|, i requires 0 <= i < |pages| => pages[i].pageID)
  }

  predicate Identified(pages: seq<KioskPage>) {
    Distinct(IDs(pages)) && "" !in IDs(pages)
  }

  /** Every page has an identifier of its own: one from its title if it had
      none, else the one it had, numbered if an earlier page ended up with it.
      Nothing else changes. */
  ghost predicate Renamed(before: seq<KioskPage>, after: seq<KioskPage>) {
    && |before| == |after| && Identified(after)
    && (forall i :: 0 <= i < |after| ==> after[i] == before[i].(pageID := after[i].pageID))
    && (forall i :: 0 <= i < |after| && before[i].pageID == "" ==> Titled(after[i].pageID, before[i].name, i))
    && (forall i :: 0 <= i < |after| && before[i].pageID != "" ==> Numbered(after[i].pageID, before[i].pageID))
    && forall i :: 0 <= i < |after| && before[i].pageID != "" && before[i].pageID !in IDs(after[..i]) ==>
         after[i].pageID == before[i].pageID
  }

  lemma RenamedAppend(before: seq<KioskPage>, after: seq<KioskPage>, page: KioskPage, id: string)
    requires Renamed(before, after) && id != "" && id !in IDs(after)
    requires page.pageID != "" && page.pageID !in IDs(after) ==> id == page.pageID
    requires if page.pageID == "" then Titled(id, page.name, |after|) else Numbered(id, page.pageID)
    ensures Renamed(before + [page], after + [page.(pageID := id)])
    ensures IDs(after + [page.(pageID := id)]) == IDs(after) + [id]
  {
    hide Titled, Numbered;
    var longer := after + [page.(pageID := id)];
    assert IDs(longer) == IDs(after) + [id];
    assert forall i :: 0 <= i <= |after| ==> longer[..i] == after[..i];
    assert after[..|after|] == after;
    assert forall i :: 0 <= i < |after| ==> IDs(after)[i] in IDs(after);
  }

  /** Pages that already have identifiers of their own keep them all, so a
      second pass changes nothing. */
  lemma SecondPassChangesNothing(before: seq<KioskPage>, after: seq<KioskPage>)
    requires Renamed(before, after) && Identified(before)
    ensures after == before
  {
    SamePrefix(before, after, |after|);
    assert after[..|after|] == after && before[..|before|] == before;
  }

  lemma {:induction false} SamePrefix(before: seq<KioskPage>, after: seq<KioskPage>, i: nat)
    requires Renamed(before, after) && Identified(before) && i <= |after|
    ensures after[..i] == before[..i]
  {
    hide Titled, Numbered;
    if i > 0 {
      SamePrefix(before, after, i - 1);
      var ids := IDs(before);
      assert before[i - 1].pageID == ids[i - 1] && ids[i - 1] in ids;
      assert IDs(after[..i - 1]) == ids[..i - 1];
    }
  }

  /** The identifier a page ends up with, given those of the pages before it. */
  method NameFor(page: KioskPage, index: nat, used: set<string>) returns (id: string)
    ensures id !in used && id != "" && (page.pageID != "" && page.pageID !in used ==> id == page.pageID)
    ensures if page.pageID == "" then Titled(id, page.name, index) else Numbered(id, page.pageID)
  {
    id := page.pageID;
    if id == "" {
      id := LegacyPageID(page.name, index, used);
    } else if id in used {
      id := UniquePageID(id, used);
    }
  }

  class Pages {
    var pages: seq<KioskPage>

    method NormalizeIDs()
      modifies this
      ensures Renamed(old(pages), pages)
    {
      var used: set<string> := {};
      ghost var before := pages;
      for index := 0 to |pages|
        invariant |pages| == |before| && forall j :: index <= j < |pages| ==> pages[j] == before[j]
        invariant forall id :: id in used <==> id in IDs(pages[..index])
        invariant Renamed(before[..index], pages[..index])
      {
        hide Renamed, Titled, Numbered, Distinct;
        var page := pages[index];
        var id := NameFor(page, index, used);
        RenamedAppend(before[..index], pages[..index], page, id);
        assert before[..index + 1] == before[..index] + [page];
        ghost var named := pages[..index];
        pages := pages[index := page.(pageID := id)];
        assert pages[..index + 1] == named + [page.(pageID := id)];
        used := used + {id};
      }
      assert pages[..|pages|] == pages && before[..|before|] == before;
    }
  }
}
