/** Strings, options and integer sorting, as far as the supervisor uses them. */
module Text {

  datatype Option<+T> = None | Some(value: T)

  datatype Result<+T> = Ok(value: T) | Err(error: string)

  /** White space as Go's unicode.IsSpace sees it. */
  predicate IsSpace(c: char) {
    || c in {'\t', '\n', '\U{000B}', '\U{000C}', '\r', ' ', '\U{0085}', '\U{00A0}', '\U{1680}'}
    || '\U{2000}' <= c <= '\U{200A}'
    || c in {'\U{2028}', '\U{2029}', '\U{202F}', '\U{205F}', '\U{3000}'}
  }

  function TrimLeft(s: string): string {
    if s != [] && IsSpace(s[0]) then TrimLeft(s[1..]) else s
  }

  function TrimRight(s: string): string {
    if s != [] && IsSpace(s[|s| - 1]) then TrimRight(s[..|s| - 1]) else s
  }

  function TrimSpace(s: string): string {
    TrimRight(TrimLeft(s))
  }

  /** The text between the first and the last character that is no white space. */
  lemma TrimSpaceExactly(s: string) returns (i: nat, j: nat)
    ensures i <= j <= |s| && TrimSpace(s) == s[i..j]
    ensures forall k :: 0 <= k < i || j <= k < |s| ==> IsSpace(s[k])
    ensures i < j ==> !IsSpace(s[i]) && !IsSpace(s[j - 1])
  {
    i := LeftEnd(s);
    var rest := s[i..];
    var n := RightEnd(rest);
    j := i + n;
    assert rest[..n] == s[i..j];
    assert forall k :: n <= k < |rest| ==> rest[k] == s[i + k];
  }

  lemma {:induction false} LeftEnd(s: string) returns (i: nat)
    ensures i <= |s| && TrimLeft(s) == s[i..] && (forall k :: 0 <= k < i ==> IsSpace(s[k]))
    ensures i < |s| ==> !IsSpace(s[i])
  {
    i := 0;
    if s != [] && IsSpace(s[0]) {
      var n := LeftEnd(s[1..]);
      i := n + 1;
    }
  }

  lemma {:induction false} RightEnd(s: string) returns (j: nat)
    ensures j <= |s| && TrimRight(s) == s[..j] && forall k :: j <= k < |s| ==> IsSpace(s[k])
    ensures j > 0 ==> !IsSpace(s[j - 1])
  {
    j := |s|;
    if s != [] && IsSpace(s[|s| - 1]) {
      j := RightEnd(s[..|s| - 1]);
    }
  }

  lemma AlreadyTrimmed(s: string)
    requires s != "" && !IsSpace(s[0]) && !IsSpace(s[|s| - 1])
    ensures TrimSpace(s) == s
  {
  }

  predicate Blank(s: string) {
    TrimSpace(s) == ""
  }

  /** Lower case, for the letters whose lower case is an ASCII letter. */
  function LowerChar(c: char): (r: char)
    ensures 'A' <= c <= 'Z' ==> r as int == c as int + 32
    ensures c < 'A' || 'Z' < c < '\U{0080}' ==> r == c
  {
    if 'A' <= c <= 'Z' then c - 'A' + 'a'
    else if c == '\U{0130}' then 'i'
    else if c == '\U{212A}' then 'k'
    else c
  }

  function Lower(s: string): string {
    seq(|s|, i requires 0 <= i < |s| => LowerChar(s[i]))
  }

  // ---------------------------------------------------------------- sorting

  predicate Sorted(s: seq<int>) {
    forall i, j :: 0 <= i < j < |s| ==> s[i] <= s[j]
  }

  predicate Increasing(s: seq<int>) {
    forall i, j :: 0 <= i < j < |s| ==> s[i] < s[j]
  }

  lemma PrependSorted(x: int, s: seq<int>)
    ensures Sorted(s) && (forall y <- s :: x <= y) ==> Sorted([x] + s)
    ensures Increasing(s) && (forall y <- s :: x < y) ==> Increasing([x] + s)
    ensures forall y :: y in [x] + s <==> y == x || y in s
  {
    assert forall j :: 0 <= j < |s| ==> s[j] in s;
  }

  function InsertInt(x: int, s: seq<int>): (r: seq<int>)
    requires Sorted(s)
    ensures Sorted(r) && forall y :: y in r <==> y == x || y in s
    ensures Increasing(s) && x !in s ==> Increasing(r)
  {
    if s == [] then [x]
    else if x <= s[0] then PrependSorted(x, s); [x] + s
    else
      var r := InsertInt(x, s[1..]);
      PrependSorted(s[0], r);
      [s[0]] + r
  }

  /** The library's ascending sort of integers. */
  function SortInts(s: seq<int>): (r: seq<int>)
    ensures Sorted(r) && forall x :: x in r <==> x in s
    ensures Distinct(s) ==> Increasing(r)
  {
    if s == [] then []
    else
      assert s == [s[0]] + s[1..];
      InsertInt(s[0], SortInts(s[1..]))
  }

  predicate Distinct<T(==)>(s: seq<T>) {
    forall i, j :: 0 <= i < j < |s| ==> s[i] != s[j]
  }

  lemma AppendIncreasing(s: seq<int>, x: int)
    requires Increasing(s) && forall y <- s :: y < x
    ensures Increasing(s + [x])
  {
    forall i | 0 <= i < |s| ensures s[i] < x {
      assert s[i] in s;
    }
  }

  /** Drops repeated neighbours, like slices.Compact. */
  function Compact(s: seq<int>): (r: seq<int>)
    requires Sorted(s)
    ensures Increasing(r)
    ensures forall x :: x in r <==> x in s
    ensures s != [] ==> r != [] && r[0] == s[0]
  {
    if |s| <= 1 then s
    else
      assert s == [s[0]] + s[1..];
      var r := Compact(s[1..]);
      if s[0] == s[1] then r
      else
        assert forall y <- r :: y in s[1..] && s[1] <= y;
        [s[0]] + r
  }
}
