/** Release versions: how two of them compare, and which release is newest. */
module Versions {
  import opened Text
  import opened Clocks

  const TWO_63: int := 0x8000_0000_0000_0000
  const TWO_64: int := 0x1_0000_0000_0000_0000

  /** What a 64-bit signed integer holds after computing n. */
  function Wrap(n: int): int { (n + TWO_63) % TWO_64 - TWO_63 }

  predicate Fits(n: int) { -TWO_63 <= n < TWO_63 }

  /** It is in range and differs from n by whole turns. */
  lemma WrapExactly(n: int)
    ensures Fits(Wrap(n)) && (n - Wrap(n)) % TWO_64 == 0
    ensures Fits(n) ==> Wrap(n) == n
  {
    var q := (n + TWO_63) / TWO_64;
    assert n - Wrap(n) == q * TWO_64;
    WholeTurns(0, q);
  }

  lemma WrapStep(x: int, digit: int)
    ensures Wrap(Wrap(x) * 10 + digit) == Wrap(x * 10 + digit)
  {
    var k := (x + TWO_63) / TWO_64;
    assert Wrap(x) * 10 + digit + TWO_63 == x * 10 + digit + TWO_63 - 10 * k * TWO_64;
    WholeTurns(x * 10 + digit + TWO_63, -10 * k);
  }

  lemma WholeTurns(n: int, k: int)
    ensures (n + k * TWO_64) % TWO_64 == n % TWO_64
  {
    var q := n / TWO_64;
    assert n + k * TWO_64 == (q + k) * TWO_64 + n % TWO_64;
  }

  function Sign(n: int): int { if n < 0 then -1 else if n == 0 then 0 else 1 }

  // ------------------------------------------------------------ the texts

  function TrimV(s: string): string {
    if s != "" && s[0] == 'v' then s[1..] else s
  }

  /** The index of the first '-' or '~', or the length. */
  function CutAt(s: string): (r: nat)
    ensures r <= |s| && (r < |s| ==> s[r] == '-' || s[r] == '~')
    ensures forall i :: 0 <= i < r ==> s[i] != '-' && s[i] != '~'
  {
    if s == "" || s[0] == '-' || s[0] == '~' then 0 else CutAt(s[1..]) + 1
  }

  predicate IsPrerelease(version: string) {
    CutAt(TrimV(version)) < |TrimV(version)|
  }

  function PrereleaseOf(version: string): string {
    var v := TrimV(version);
    if CutAt(v) < |v| then v[CutAt(v) + 1..] else ""
  }

  /** The digits a field starts with. */
  function Digits(field: string): (r: string)
    ensures AllDigits(r) && r <= field
    ensures |r| < |field| ==> !IsDigit(field[|r|])
  {
    if field == "" || !IsDigit(field[0]) then ""
    else
      var rest := Digits(field[1..]);
      assert [field[0]] + field[1..] == field;
      [field[0]] + rest
  }

  function Fields(version: string): seq<string> {
    var v := TrimV(version);
    Split(v[..CutAt(v)], '.')
  }

  function Part(field: string): int { Wrap(Number(Digits(field))) }

  function Parts(fields: seq<string>): (r: seq<int>)
    ensures |r| == |fields|
  {
    seq(|fields|, i requires 0 <= i < |fields| => Part(fields[i]))
  }

  method FieldPart(field: string) returns (value: int)
    ensures value == Part(field)
  {
    value := 0;
    var i := 0;
    while i < |field| && IsDigit(field[i])
      invariant 0 <= i <= |Digits(field)| && value == Wrap(Number(Digits(field)[..i]))
    {
      ghost var digits := Digits(field);
      assert digits[..i + 1][..i] == digits[..i] && digits[..i + 1][i] == field[i];
      WrapStep(Number(digits[..i]), (field[i] - '0') as int);
      value := Wrap(value * 10 + (field[i] - '0') as int);
      i := i + 1;
    }
    assert Digits(field)[..i] == Digits(field);
  }

  method VersionParts(version: string) returns (out: seq<int>)
    ensures out == Parts(Fields(version))
  {
    var fields := Fields(version);
    out := [];
    for i := 0 to |fields|
      invariant |out| == i && forall j :: 0 <= j < i ==> out[j] == Part(fields[j])
    {
      var value := FieldPart(fields[i]);
      out := out + [value];
    }
  }

  // ------------------------------------------------------- numeric fields

  function At(parts: seq<int>, i: nat): int { if i < |parts| then parts[i] else 0 }

  function Longer(a: seq<int>, b: seq<int>): nat { if |a| < |b| then |b| else |a| }

  /** The first pair of parts from i on that differ, (0, 0) when none does. */
  function FirstDifference(a: seq<int>, b: seq<int>, i: nat): (int, int)
    decreases Longer(a, b) - i
  {
    if i >= Longer(a, b) then (0, 0)
    else if At(a, i) != At(b, i) then (At(a, i), At(b, i))
    else FirstDifference(a, b, i + 1)
  }

  /** The numbers at i are the first that differ from `from` on. */
  lemma {:induction false} DecidedAt(a: seq<int>, b: seq<int>, from: nat, i: nat)
    requires from <= i && (forall j: nat :: from <= j < i ==> At(a, j) == At(b, j)) && At(a, i) != At(b, i)
    ensures FirstDifference(a, b, from) == (At(a, i), At(b, i))
    decreases i - from
  {
    if from < i { DecidedAt(a, b, from + 1, i); }
  }

  lemma {:induction false} NothingDiffers(a: seq<int>, b: seq<int>, from: nat)
    requires forall j: nat :: j >= from ==> At(a, j) == At(b, j)
    ensures FirstDifference(a, b, from) == (0, 0)
    decreases Longer(a, b) - from
  {
    if from < Longer(a, b) { NothingDiffers(a, b, from + 1); }
  }

  // ------------------------------------------------------ lexicographic order

  /** The first non-zero comparison of two elements, else of the lengths. */
  function Lex<T>(a: seq<T>, b: seq<T>, cmp: (T, T) -> int): int {
    if a == [] || b == [] then |a| - |b|
    else if cmp(a[0], b[0]) != 0 then cmp(a[0], b[0])
    else Lex(a[1..], b[1..], cmp)
  }

  ghost predicate TotalPreorder<T(!new)>(cmp: (T, T) -> int) {
    && (forall a, b :: Sign(cmp(b, a)) == -Sign(cmp(a, b)))
    && (forall a, b, c :: cmp(a, b) <= 0 && cmp(b, c) <= 0 ==> cmp(a, c) <= 0)
  }

  lemma {:induction false} LexReverses<T(!new)>(a: seq<T>, b: seq<T>, cmp: (T, T) -> int)
    requires TotalPreorder(cmp)
    ensures Sign(Lex(b, a, cmp)) == -Sign(Lex(a, b, cmp))
  {
    if a != [] && b != [] {
      assert Sign(cmp(b[0], a[0])) == -Sign(cmp(a[0], b[0]));
      LexReverses(a[1..], b[1..], cmp);
    }
  }

  lemma {:induction false} LexTransitive<T(!new)>(a: seq<T>, b: seq<T>, c: seq<T>, cmp: (T, T) -> int)
    requires TotalPreorder(cmp) && Lex(a, b, cmp) <= 0 && Lex(b, c, cmp) <= 0
    ensures Lex(a, c, cmp) <= 0
  {
    if a != [] && b != [] && c != [] {
      var x, y, z := a[0], b[0], c[0];
      assert cmp(x, y) <= 0 && cmp(y, z) <= 0 && cmp(x, z) <= 0;
      if cmp(x, z) == 0 {
        assert Sign(cmp(z, x)) == -Sign(cmp(x, z));
        assert cmp(y, x) <= 0 && Sign(cmp(y, x)) == -Sign(cmp(x, y));
        assert cmp(z, y) <= 0 && Sign(cmp(z, y)) == -Sign(cmp(y, z));
        LexTransitive(a[1..], b[1..], c[1..], cmp);
      }
    }
  }

  /** The first elements that differ decide, else the lengths. */
  lemma {:induction false} LexDecides<T>(a: seq<T>, b: seq<T>, cmp: (T, T) -> int, n: nat)
    requires n <= |a| && n <= |b| && forall j :: 0 <= j < n ==> cmp(a[j], b[j]) == 0
    ensures n < |a| && n < |b| && cmp(a[n], b[n]) != 0 ==> Lex(a, b, cmp) == cmp(a[n], b[n])
    ensures n == |a| || n == |b| ==> Lex(a, b, cmp) == |a| - |b|
  {
    if n > 0 {
      LexDecides(a[1..], b[1..], cmp, n - 1);
    }
  }

  lemma LexPreorder<T(!new)>(cmp: (T, T) -> int)
    requires TotalPreorder(cmp)
    ensures TotalPreorder((a: seq<T>, b: seq<T>) => Lex(a, b, cmp))
  {
    forall a: seq<T>, b: seq<T> ensures Sign(Lex(b, a, cmp)) == -Sign(Lex(a, b, cmp)) {
      LexReverses(a, b, cmp);
    }
    forall a: seq<T>, b: seq<T>, c: seq<T> | Lex(a, b, cmp) <= 0 && Lex(b, c, cmp) <= 0 ensures Lex(a, c, cmp) <= 0 {
      LexTransitive(a, b, c, cmp);
    }
  }

  // ---------------------------------------------------- pre-release labels

  predicate IsSeparator(c: char) { c == '.' || c == '-' }

  /** Length of the stretch without a separator at the front. */
  function Stretch(s: string): (r: nat)
    ensures r <= |s| && forall i :: 0 <= i < r ==> !IsSeparator(s[i])
    ensures s != "" && !IsSeparator(s[0]) ==> r > 0
  {
    if s == "" || IsSeparator(s[0]) then 0 else Stretch(s[1..]) + 1
  }

  predicate IsField(s: string) { s != "" && forall c <- s :: !IsSeparator(c) }

  /** strings.FieldsFunc: the non-empty pieces between separators. */
  function LabelFields(s: string): (r: seq<string>)
    ensures forall field <- r :: IsField(field)
    decreases |s|
  {
    if s == "" then []
    else if IsSeparator(s[0]) then LabelFields(s[1..])
    else [s[..Stretch(s)]] + LabelFields(s[Stretch(s)..])
  }

  function FirstDigit(s: string): (r: nat)
    ensures r <= |s|
  {
    if s == "" || IsDigit(s[0]) then 0 else FirstDigit(s[1..]) + 1
  }

  /** A word with a number glued to it is two identifiers. */
  function FieldIdentifiers(field: string): seq<string> {
    var split := FirstDigit(field);
    if 0 < split < |field| && AllDigits(field[split..]) then [Lower(field[..split]), field[split..]]
    else [Lower(field)]
  }

  function IdentifiersOf(fields: seq<string>): seq<string> {
    if fields == [] then [] else IdentifiersOf(fields[..|fields| - 1]) + FieldIdentifiers(fields[|fields| - 1])
  }

  function Identifiers(suffix: string): seq<string> { IdentifiersOf(LabelFields(suffix)) }

  method PrereleaseIdentifiers(suffix: string) returns (out: seq<string>)
    ensures out == Identifiers(suffix)
  {
    var fields := LabelFields(suffix);
    out := [];
    for i := 0 to |fields|
      invariant out == IdentifiersOf(fields[..i])
    {
      assert fields[..i + 1][..i] == fields[..i];
      var field := fields[i];
      var split := FirstDigit(field);
      if 0 < split < |field| && AllDigits(field[split..]) {
        out := out + [Lower(field[..split]), field[split..]];
        continue;
      }
      out := out + [Lower(field)];
    }
    assert fields[..|fields|] == fields;
  }

  function CompareStrings(a: string, b: string): int {
    Sign(Lex(a, b, (x: char, y: char) => x as int - y as int))
  }

  function CompareIdentifiers(a: string, b: string): int {
    match (Atoi(a), Atoi(b))
    case (Some(an), Some(bn)) => an - bn
    case (Some(_), None) => -1
    case (None, Some(_)) => 1
    case (None, None) => CompareStrings(a, b)
  }

  /** Of two texts the one that ends first or has the smaller character where they
      first differ. */
  ghost predicate TextBelow(a: string, b: string) {
    exists n: nat :: n <= |a| && n < |b| && a[..n] == b[..n] && (n == |a| || a[n] < b[n])
  }

  /** Numbers by value, before words; words by their characters. */
  ghost predicate IdentifierBelow(a: string, b: string) {
    match (Atoi(a), Atoi(b))
    case (Some(an), Some(bn)) => an < bn
    case (Some(_), None) => true
    case (None, Some(_)) => false
    case (None, None) => TextBelow(a, b)
  }

  lemma IdentifiersCompare(a: string, b: string)
    ensures IdentifierBelow(a, b) ==> CompareIdentifiers(a, b) < 0 < CompareIdentifiers(b, a)
    ensures CompareIdentifiers(a, a) == 0
  {
    var chars := (x: char, y: char) => x as int - y as int;
    LexDecides(a, a, chars, |a|);
    if Atoi(a).None? && Atoi(b).None? && TextBelow(a, b) {
      var n: nat :| n <= |a| && n < |b| && a[..n] == b[..n] && (n == |a| || a[n] < b[n]);
      assert forall j :: 0 <= j < n ==> a[j] == a[..n][j] == b[..n][j] == b[j];
      LexDecides(a, b, chars, n);
      LexDecides(b, a, chars, n);
    }
    hide Atoi;
  }

  /** The first identifiers that differ decide; a label that only continues the
      other comes after it. */
  ghost predicate LabelBelow(a: seq<string>, b: seq<string>) {
    exists n: nat :: n <= |a| && n < |b| && a[..n] == b[..n] && (n == |a| || IdentifierBelow(a[n], b[n]))
  }

  lemma LabelsCompare(left: string, right: string)
    ensures LabelBelow(Identifiers(left), Identifiers(right)) ==> ComparePrerelease(left, right) < 0 < ComparePrerelease(right, left)
    ensures Identifiers(left) == Identifiers(right) ==> ComparePrerelease(left, right) == 0
  {
    var a, b := Identifiers(left), Identifiers(right);
    hide Identifiers, IdentifierBelow, CompareIdentifiers;
    forall x: string ensures CompareIdentifiers(x, x) == 0 { IdentifiersCompare(x, x); }
    if a == b { LexDecides(a, b, CompareIdentifiers, |a|); }
    if LabelBelow(a, b) {
      var n: nat :| n <= |a| && n < |b| && a[..n] == b[..n] && (n == |a| || IdentifierBelow(a[n], b[n]));
      if n < |a| { IdentifiersCompare(a[n], b[n]); }
      assert forall j :: 0 <= j < n ==> a[j] == a[..n][j] == b[..n][j] == b[j];
      LexDecides(a, b, CompareIdentifiers, n);
      LexDecides(b, a, CompareIdentifiers, n);
    }
  }

  function ComparePrerelease(left: string, right: string): int {
    Lex(Identifiers(left), Identifiers(right), CompareIdentifiers)
  }

  /** The subtraction of two numeric identifiers never leaves 64 bits, because
      no identifier holds a minus sign. */
  lemma IdentifiersNeverWrap(left: string, right: string, i: nat, j: nat)
    requires i < |Identifiers(left)| && j < |Identifiers(right)|
    requires Atoi(Identifiers(left)[i]).Some? && Atoi(Identifiers(right)[j]).Some?
    ensures Fits(Atoi(Identifiers(left)[i]).value - Atoi(Identifiers(right)[j]).value)
  {
    IdentifiersHaveNoMinus(LabelFields(left));
    IdentifiersHaveNoMinus(LabelFields(right));
    assert Identifiers(left)[i] in Identifiers(left) && Identifiers(right)[j] in Identifiers(right);
    hide Identifiers, Number;
  }

  lemma {:induction false} IdentifiersHaveNoMinus(fields: seq<string>)
    requires forall field <- fields :: IsField(field)
    ensures forall id <- IdentifiersOf(fields) :: id != "" && id[0] != '-'
  {
    if fields != [] {
      var field := fields[|fields| - 1];
      assert field in fields;
      FieldHasNoMinus(field);
      var earlier := fields[..|fields| - 1];
      assert forall f <- earlier :: f in fields;
      IdentifiersHaveNoMinus(earlier);
      hide IsField, FieldIdentifiers;
    }
  }

  lemma FieldHasNoMinus(field: string)
    requires IsField(field)
    ensures forall id <- FieldIdentifiers(field) :: id != "" && id[0] != '-'
  {
    assert field[0] in field;
    var split := FirstDigit(field);
    assert 0 < split < |field| ==> field[split] in field;
    hide FirstDigit, AllDigits;
  }

  lemma IdentifiersOrdered()
    ensures TotalPreorder(CompareIdentifiers)
  {
    var chars := (x: char, y: char) => x as int - y as int;
    assert TotalPreorder(chars);
    forall a: string, b: string ensures Sign(CompareIdentifiers(b, a)) == -Sign(CompareIdentifiers(a, b)) {
      LexReverses(a, b, chars);
    }
    forall a: string, b: string, c: string | CompareIdentifiers(a, b) <= 0 && CompareIdentifiers(b, c) <= 0
      ensures CompareIdentifiers(a, c) <= 0
    {
      if Atoi(a).None? && Atoi(b).None? && Atoi(c).None? {
        LexTransitive(a, b, c, chars);
      }
    }
  }

  predicate IsWord(s: string) { s != "" && forall c <- s :: 'a' <= c <= 'z' }

  lemma {:induction false} StretchOfField(field: string, tail: string)
    requires forall c <- field :: !IsSeparator(c)
    requires tail == "" || IsSeparator(tail[0])
    ensures Stretch(field + tail) == |field|
  {
    if field == "" {
      assert field + tail == tail;
    } else {
      assert field[0] in field && (field + tail)[1..] == field[1..] + tail;
      StretchOfField(field[1..], tail);
    }
  }

  lemma FirstField(field: string, tail: string)
    requires IsField(field) && (tail == "" || IsSeparator(tail[0]))
    ensures LabelFields(field + tail) == [field] + LabelFields(tail)
  {
    StretchOfField(field, tail);
    assert field[0] in field && (field + tail)[..|field|] == field && (field + tail)[|field|..] == tail;
  }

  lemma {:induction false} DigitsAfterWord(word: string, digits: string)
    requires (forall c <- word :: 'a' <= c <= 'z') && AllDigits(digits)
    ensures FirstDigit(word + digits) == |word| && Lower(word) == word
  {
    if word == "" {
      assert word + digits == digits;
      assert digits != "" ==> digits[0] in digits;
    } else {
      assert word[0] in word && (word + digits)[1..] == word[1..] + digits;
      assert forall c <- word[1..] :: c in word;
      DigitsAfterWord(word[1..], digits);
      forall i | 0 <= i < |word| ensures LowerChar(word[i]) == word[i] {
        assert word[i] in word;
      }
    }
  }

  lemma LowerDigits(digits: string)
    requires AllDigits(digits)
    ensures Lower(digits) == digits
  {
    forall i | 0 <= i < |digits| ensures LowerChar(digits[i]) == digits[i] {
      assert digits[i] in digits;
    }
  }

  /** A number behind a word is an identifier of its own, glued to it or not. */
  lemma NumberedLabel(word: string, n: nat)
    requires IsWord(word)
    ensures Identifiers(word) == [word]
    ensures Identifiers(word + Decimal(n)) == [word, Decimal(n)] == Identifiers(word + "." + Decimal(n))
  {
    var digits := Decimal(n);
    DecimalReadsBack(n);
    assert digits[0] in digits;
    hide Decimal, Number, AllDigits, LabelFields, Lower, FirstDigit;
    Glued(word, digits);
    LabelsOf(word, digits);
    assert word + "." + digits == word + ("." + digits);
    OneField(word);
    OneField(word + digits);
    TwoFields(word, digits);
  }

  lemma OneField(field: string)
    ensures IdentifiersOf([field]) == FieldIdentifiers(field)
  {
    hide FieldIdentifiers;
    assert [field][..0] == [];
  }

  lemma TwoFields(a: string, b: string)
    ensures IdentifiersOf([a, b]) == FieldIdentifiers(a) + FieldIdentifiers(b)
  {
    hide FieldIdentifiers;
    assert [a, b][..1] == [a];
    OneField(a);
  }

  lemma Glued(word: string, digits: string)
    requires IsWord(word) && AllDigits(digits) && digits != ""
    ensures FieldIdentifiers(word) == [word] && FieldIdentifiers(digits) == [digits]
    ensures FieldIdentifiers(word + digits) == [word, digits]
  {
    DigitsAfterWord(word, digits);
    DigitsAfterWord(word, "");
    assert word + "" == word;
    DigitsAfterWord("", digits);
    assert "" + digits == digits;
    LowerDigits(digits);
    assert (word + digits)[..|word|] == word && (word + digits)[|word|..] == digits;
    hide Lower, FirstDigit;
  }

  lemma LabelsOf(word: string, digits: string)
    requires IsWord(word) && AllDigits(digits) && digits != ""
    ensures LabelFields(word) == [word] && LabelFields(word + digits) == [word + digits]
    ensures LabelFields(word + ("." + digits)) == [word, digits]
  {
    assert IsField(word) && IsField(digits) && IsField(word + digits);
    FirstField(word, "");
    FirstField(word + digits, "");
    FirstField(digits, "");
    FirstField(word, "." + digits);
    assert word + "" == word && (word + digits) + "" == word + digits && digits + "" == digits;
    assert ("." + digits)[1..] == digits;
  }

  /** As documented: pre < pre.2 < pre.10 < rc.1, for all words and numbers. */
  lemma LabelsAsDocumented(word: string, later: string, m: nat, n: nat)
    requires IsWord(word) && IsWord(later) && TextBelow(word, later) && m < n <= MAX_INT
    ensures ComparePrerelease(word, word + "." + Decimal(m)) < 0
    ensures ComparePrerelease(word + "." + Decimal(m), word + Decimal(n)) < 0
    ensures ComparePrerelease(word + "." + Decimal(n), later + "." + Decimal(m)) < 0
  {
    NumberedLabel(word, m);
    NumberedLabel(word, n);
    NumberedLabel(later, m);
    ReadsAsNumber(m);
    ReadsAsNumber(n);
    NoNumber(word);
    NoNumber(later);
    hide Decimal, Atoi, Identifiers, ComparePrerelease, TextBelow;
    LongerBelow(word, Decimal(m));
    SecondBelow(word, Decimal(m), Decimal(n));
    FirstBelow([word, Decimal(n)], [later, Decimal(m)]);
    hide LabelBelow, IdentifierBelow;
    LabelsCompare(word, word + "." + Decimal(m));
    LabelsCompare(word + "." + Decimal(m), word + Decimal(n));
    LabelsCompare(word + "." + Decimal(n), later + "." + Decimal(m));
  }

  lemma LongerBelow(a: string, b: string)
    ensures LabelBelow([a], [a, b])
  {
    assert [a][..1] == [a, b][..1];
  }

  lemma SecondBelow(a: string, b: string, c: string)
    requires IdentifierBelow(b, c)
    ensures LabelBelow([a, b], [a, c])
  {
    assert [a, b][..1] == [a, c][..1] && [a, b][1] == b && [a, c][1] == c;
    hide IdentifierBelow;
  }

  lemma FirstBelow(a: seq<string>, b: seq<string>)
    requires a != [] && b != [] && IdentifierBelow(a[0], b[0])
    ensures LabelBelow(a, b)
  {
    assert a[..0] == b[..0];
    hide IdentifierBelow;
  }

  lemma ReadsAsNumber(n: nat)
    requires n <= MAX_INT
    ensures Atoi(Decimal(n)) == Some(n)
  {
    DecimalReadsBack(n);
    assert Decimal(n)[0] in Decimal(n);
    hide Decimal, Number;
  }

  lemma NoNumber(word: string)
    requires IsWord(word)
    ensures Atoi(word).None?
  {
    assert word[0] in word;
    hide Number;
  }

  // ----------------------------------------------------- comparing versions

  function Numbers(version: string): seq<int> { Parts(Fields(version)) }

  /** The comparison of the text behind the numbers. */
  function CompareLabels(left: string, right: string): int {
    if IsPrerelease(left) && !IsPrerelease(right) then -1
    else if IsPrerelease(right) && !IsPrerelease(left) then 1
    else if IsPrerelease(left) then ComparePrerelease(PrereleaseOf(left), PrereleaseOf(right))
    else 0
  }

  /** What the comparison would be if the subtraction could not wrap. */
  function Precedence(left: string, right: string): int {
    var d := FirstDifference(Numbers(left), Numbers(right), 0);
    if d.0 != d.1 then d.0 - d.1 else CompareLabels(left, right)
  }

  function Compared(left: string, right: string): int {
    var d := FirstDifference(Numbers(left), Numbers(right), 0);
    if d.0 != d.1 then Wrap(d.0 - d.1) else CompareLabels(left, right)
  }

  ghost predicate AgreeBelow(a: seq<int>, b: seq<int>, i: nat) {
    forall j: nat :: j < i ==> At(a, j) == At(b, j)
  }

  /** Where the numbers, continued with zeroes, first differ, the smaller one comes
      first, if the difference fits 64 bits. Where none differs, a pre-release
      comes before a final release and two pre-releases are ordered by label. */
  ghost predicate Orders(left: string, right: string, order: int) {
    var a, b := Numbers(left), Numbers(right);
    && (forall i: nat :: AgreeBelow(a, b, i) && Fits(At(a, i) - At(b, i)) ==>
          (At(a, i) < At(b, i) ==> order < 0) && (At(a, i) > At(b, i) ==> order > 0))
    && ((forall j: nat :: At(a, j) == At(b, j)) ==>
          && (IsPrerelease(left) && !IsPrerelease(right) ==> order < 0)
          && (!IsPrerelease(left) && IsPrerelease(right) ==> order > 0)
          && (!IsPrerelease(left) && !IsPrerelease(right) ==> order == 0)
          && (IsPrerelease(left) && IsPrerelease(right) ==>
                var x, y := Identifiers(PrereleaseOf(left)), Identifiers(PrereleaseOf(right));
                (LabelBelow(x, y) ==> order < 0) && (LabelBelow(y, x) ==> order > 0) && (x == y ==> order == 0)))
  }

  /** Where the search for the first difference ends. */
  lemma DecidingPlace(a: seq<int>, b: seq<int>) returns (i: nat)
    ensures AgreeBelow(a, b, i) && FirstDifference(a, b, 0) == (At(a, i), At(b, i))
    ensures At(a, i) == At(b, i) ==> At(a, i) == 0 && forall j: nat :: At(a, j) == At(b, j)
  {
    if j: nat :| At(a, j) != At(b, j) && AgreeBelow(a, b, j) {
      i := j;
      DecidedAt(a, b, 0, i);
    } else {
      i := Longer(a, b);
      EqualThroughout(a, b, i);
      NothingDiffers(a, b, 0);
    }
  }

  lemma {:induction false} EqualThroughout(a: seq<int>, b: seq<int>, n: nat)
    requires forall j: nat :: AgreeBelow(a, b, j) ==> At(a, j) == At(b, j)
    ensures AgreeBelow(a, b, n)
    ensures n >= Longer(a, b) ==> forall j: nat :: At(a, j) == At(b, j)
  {
    if n > 0 { EqualThroughout(a, b, n - 1); }
  }

  /** No other place decides. */
  lemma OnePlaceDecides(a: seq<int>, b: seq<int>, d: nat, i: nat)
    requires AgreeBelow(a, b, d) && AgreeBelow(a, b, i) && At(a, i) != At(b, i)
    ensures At(a, d) != At(b, d) ==> i == d
  {
  }

  lemma ComparedOrders(left: string, right: string)
    ensures Orders(left, right, Compared(left, right))
  {
    hide Numbers, Identifiers, LabelBelow, ComparePrerelease, Wrap, FirstDifference, IsPrerelease, PrereleaseOf, At, Fits;
    var a, b := Numbers(left), Numbers(right);
    var d := DecidingPlace(a, b);
    if At(a, d) == At(b, d) {
      LabelsCompare(PrereleaseOf(left), PrereleaseOf(right));
      LabelsCompare(PrereleaseOf(right), PrereleaseOf(left));
    } else {
      WrapExactly(At(a, d) - At(b, d));
      forall i: nat | AgreeBelow(a, b, i) && At(a, i) != At(b, i) ensures i == d {
        OnePlaceDecides(a, b, d, i);
      }
      hide CompareLabels, AgreeBelow;
    }
  }

  method CompareVersion(left: string, right: string) returns (order: int)
    ensures order == Compared(left, right) && Orders(left, right, order)
  {
    ComparedOrders(left, right);
    hide Orders;
    hide Parts, Fields, IsPrerelease, PrereleaseOf, ComparePrerelease;
    var a := VersionParts(left);
    var b := VersionParts(right);
    var i := 0;
    while i < |a| || i < |b|
      invariant FirstDifference(a, b, 0) == FirstDifference(a, b, i)
      decreases Longer(a, b) - i
    {
      var av, bv := 0, 0;
      if i < |a| { av := a[i]; }
      if i < |b| { bv := b[i]; }
      if av != bv { return Wrap(av - bv); }
      i := i + 1;
    }
    var leftPre, rightPre := IsPrerelease(left), IsPrerelease(right);
    if leftPre && !rightPre { return -1; }
    if rightPre && !leftPre { return 1; }
    if leftPre && rightPre { return ComparePrerelease(PrereleaseOf(left), PrereleaseOf(right)); }
    return 0;
  }

  /** The comparison has the sign of the true precedence exactly when the first
      differing numbers can be subtracted in 64 bits. */
  lemma FaithfulExactlyWhenNothingWraps(left: string, right: string)
    ensures var d := FirstDifference(Numbers(left), Numbers(right), 0);
      Sign(Compared(left, right)) == Sign(Precedence(left, right)) <==> Fits(d.0 - d.1)
  {
    hide Numbers, FirstDifference, CompareLabels, Wrap, Fits;
    NumbersFit(left);
    NumbersFit(right);
    FirstDifferenceFits(Numbers(left), Numbers(right), 0);
    var d := FirstDifference(Numbers(left), Numbers(right), 0);
    WrappedSign(d.0, d.1);
  }

  lemma NumbersFit(version: string)
    ensures forall n <- Numbers(version) :: Fits(n)
  {
    hide Fields, Number, Digits;
  }

  lemma WrappedSign(x: int, y: int)
    requires Fits(x) && Fits(y)
    ensures x == y ==> Fits(x - y)
    ensures Sign(Wrap(x - y)) == Sign(x - y) <==> Fits(x - y)
  {
    assert x - y >= TWO_63 ==> Wrap(x - y) == x - y - TWO_64;
    assert x - y < -TWO_63 ==> Wrap(x - y) == x - y + TWO_64;
  }

  lemma {:induction false} FirstDifferenceFits(a: seq<int>, b: seq<int>, i: nat)
    requires (forall n <- a :: Fits(n)) && forall n <- b :: Fits(n)
    ensures var d := FirstDifference(a, b, i); Fits(d.0) && Fits(d.1)
    ensures (forall n <- a :: n >= 0) && (forall n <- b :: n >= 0) ==> var d := FirstDifference(a, b, i); d.0 >= 0 && d.1 >= 0
    decreases Longer(a, b) - i
  {
    assert i < |a| ==> a[i] in a;
    assert i < |b| ==> b[i] in b;
    if i < Longer(a, b) && At(a, i) == At(b, i) {
      FirstDifferenceFits(a, b, i + 1);
    }
  }

  /** Every number of the version is one a 64-bit integer can hold. */
  predicate InRange(version: string) {
    forall field <- Fields(version) :: Number(Digits(field)) < TWO_63
  }

  lemma NumbersInRange(version: string)
    requires InRange(version)
    ensures forall i :: 0 <= i < |Fields(version)| ==> Numbers(version)[i] == Number(Digits(Fields(version)[i]))
    ensures forall n <- Numbers(version) :: n >= 0 && Fits(n)
  {
    hide Fields, Number, Digits;
  }

  lemma InRangeIsFaithful(left: string, right: string)
    requires InRange(left) && InRange(right)
    ensures Sign(Compared(left, right)) == Sign(Precedence(left, right))
    ensures forall i :: 0 <= i < |Fields(left)| ==> Numbers(left)[i] == Number(Digits(Fields(left)[i]))
  {
    NumbersInRange(left);
    NumbersInRange(right);
    hide Numbers, Fields, Number, Digits, InRange, FirstDifference, Compared, Precedence;
    FirstDifferenceFits(Numbers(left), Numbers(right), 0);
    FaithfulExactlyWhenNothingWraps(left, right);
  }

  // ------------------------------------------------------------- the order

  lemma {:induction false} DifferenceReverses(a: seq<int>, b: seq<int>, i: nat)
    ensures FirstDifference(b, a, i) == (FirstDifference(a, b, i).1, FirstDifference(a, b, i).0)
    decreases Longer(a, b) - i
  {
    if i < Longer(a, b) && At(a, i) == At(b, i) { DifferenceReverses(a, b, i + 1); }
  }

  /** From index i on: a below b below c, or equal. */
  lemma {:induction false} DifferenceTransitive(a: seq<int>, b: seq<int>, c: seq<int>, i: nat)
    requires var d, e := FirstDifference(a, b, i), FirstDifference(b, c, i); d.0 <= d.1 && e.0 <= e.1
    ensures var d, e, f := FirstDifference(a, b, i), FirstDifference(b, c, i), FirstDifference(a, c, i);
      f.0 <= f.1 && (f.0 == f.1 <==> d.0 == d.1 && e.0 == e.1)
    decreases |a| + |b| + |c| - i
  {
    if i < Longer(a, b) || i < Longer(b, c) {
      if At(a, i) == At(b, i) == At(c, i) { DifferenceTransitive(a, b, c, i + 1); }
    }
  }

  lemma {:induction false} EqualParts(a: seq<int>, b: seq<int>, i: nat)
    requires FirstDifference(a, b, i).0 == FirstDifference(a, b, i).1
    ensures forall j :: j >= i ==> At(a, j) == At(b, j)
    decreases Longer(a, b) - i
  {
    if i < Longer(a, b) { EqualParts(a, b, i + 1); }
  }

  /** True precedence is a total preorder on all version texts. */
  lemma PrecedenceIsTotalPreorder()
    ensures TotalPreorder(Precedence)
  {
    forall a: string, b: string ensures Sign(Precedence(b, a)) == -Sign(Precedence(a, b)) {
      PrecedenceReverses(a, b);
    }
    forall a: string, b: string, c: string | Precedence(a, b) <= 0 && Precedence(b, c) <= 0
      ensures Precedence(a, c) <= 0
    {
      PrecedenceTransitive(a, b, c);
    }
  }

  lemma PrecedenceReverses(a: string, b: string)
    ensures Sign(Precedence(b, a)) == -Sign(Precedence(a, b))
  {
    DifferenceReverses(Numbers(a), Numbers(b), 0);
    IdentifiersOrdered();
    LexReverses(Identifiers(PrereleaseOf(a)), Identifiers(PrereleaseOf(b)), CompareIdentifiers);
    hide Numbers, FirstDifference, Lex, Identifiers, CompareIdentifiers, TotalPreorder;
  }

  lemma PrecedenceTransitive(a: string, b: string, c: string)
    requires Precedence(a, b) <= 0 && Precedence(b, c) <= 0
    ensures Precedence(a, c) <= 0
  {
    DifferenceTransitive(Numbers(a), Numbers(b), Numbers(c), 0);
    IdentifiersOrdered();
    if ComparePrerelease(PrereleaseOf(a), PrereleaseOf(b)) <= 0 && ComparePrerelease(PrereleaseOf(b), PrereleaseOf(c)) <= 0 {
      LexTransitive(Identifiers(PrereleaseOf(a)), Identifiers(PrereleaseOf(b)), Identifiers(PrereleaseOf(c)), CompareIdentifiers);
    }
    hide Numbers, FirstDifference, Lex, Identifiers, CompareIdentifiers, TotalPreorder;
  }

  lemma {:induction false} DigitsOfDigits(s: string)
    requires AllDigits(s)
    ensures Digits(s) == s
  {
    if s != "" {
      assert s[0] in s;
      DigitsOfDigits(s[1..]);
      assert [s[0]] + s[1..] == s;
    }
  }

  lemma PlainNumber(s: string)
    requires s != "" && AllDigits(s)
    ensures Numbers(s) == [Wrap(Number(s))] && !IsPrerelease(s)
  {
    hide Number, Digits, Split, CutAt;
    assert s[0] in s;
    assert '-' !in s && '~' !in s && '.' !in s;
    assert CutAt(s) == |s| && s[..|s|] == s;
    OnePiece(s, '.');
    DigitsOfDigits(s);
    hide AllDigits;
  }

  /** Without the range even the order is lost: of the versions 2^63 and 0, each
      compares below the other. */
  lemma BothBelowEachOther()
    ensures var big := Decimal(9_223_372_036_854_775_808); Compared(big, "0") < 0 && Compared("0", big) < 0
  {
    hide Decimal, Number, Numbers, IsPrerelease, AllDigits;
    var big := Decimal(TWO_63);
    DecimalReadsBack(TWO_63);
    PlainNumber(big);
    Zero();
    assert Wrap(TWO_63) == -TWO_63 == Wrap(TWO_63 - 0);
    assert FirstDifference(Numbers(big), Numbers("0"), 0) == (-TWO_63, 0);
    assert FirstDifference(Numbers("0"), Numbers(big), 0) == (0, -TWO_63);
    hide FirstDifference;
  }

  lemma Zero()
    ensures Numbers("0") == [0] && !IsPrerelease("0") && Part("0") == 0
  {
    PlainNumber("0");
  }

  // ------------------------------------------------- zeroes and pre-releases

  /** A suffix is empty or begins where the numbers are cut off. */
  predicate IsSuffix(s: string) { s == "" || s[0] == '-' || s[0] == '~' }

  predicate IsCore(s: string) { '-' !in s && '~' !in s }

  lemma {:induction false} CutBeforeSuffix(core: string, suffix: string)
    requires IsCore(core) && IsSuffix(suffix)
    ensures CutAt(core + suffix) == |core|
  {
    if core == "" {
      assert core + suffix == suffix;
    } else {
      assert core[0] in core;
      assert (core + suffix)[1..] == core[1..] + suffix;
      CutBeforeSuffix(core[1..], suffix);
    }
  }

  lemma CoreAndSuffix(core: string, suffix: string)
    requires IsCore(core) && IsSuffix(suffix)
    ensures Fields(core + suffix) == Split(TrimV(core), '.')
    ensures IsPrerelease(core + suffix) <==> suffix != ""
    ensures PrereleaseOf(core + suffix) == if suffix == "" then "" else suffix[1..]
  {
    var v := TrimV(core);
    assert TrimV(core + suffix) == v + suffix;
    CutBeforeSuffix(v, suffix);
    assert (v + suffix)[..|v|] == v;
    assert suffix != "" ==> (v + suffix)[|v| + 1..] == suffix[1..];
  }

  /** Numbers between dots. */
  function Dotted(numbers: seq<nat>): string
    requires numbers != []
  {
    var n := |numbers| - 1;
    if n == 0 then Decimal(numbers[0]) else Dotted(numbers[..n]) + ['.'] + Decimal(numbers[n])
  }

  lemma {:induction false} DottedFields(numbers: seq<nat>)
    requires numbers != []
    ensures Split(Dotted(numbers), '.') == seq(|numbers|, i requires 0 <= i < |numbers| => Decimal(numbers[i]))
    ensures IsCore(Dotted(numbers)) && Dotted(numbers) != "" && IsDigit(Dotted(numbers)[0])
  {
    var n := |numbers| - 1;
    var last := Decimal(numbers[n]);
    DecimalReadsBack(numbers[n]);
    assert last[0] in last && '.' !in last && IsCore(last);
    hide Decimal, Split, IsCore, Number;
    if n == 0 {
      OnePiece(last, '.');
    } else {
      DottedFields(numbers[..n]);
      SplitLast(Dotted(numbers[..n]), '.', last);
      CoreConcat(Dotted(numbers[..n]), last);
    }
  }

  lemma CoreConcat(a: string, b: string)
    requires IsCore(a) && IsCore(b)
    ensures IsCore(a + ['.'] + b)
  {
  }

  /** Numbers written between dots, with or without a leading v and with whatever
      suffix, are read back as they are. */
  lemma NumbersReadBack(numbers: seq<nat>, v: string, suffix: string)
    requires numbers != [] && (v == "" || v == "v") && IsSuffix(suffix)
    requires forall n <- numbers :: n < 9_223_372_036_854_775_808
    ensures Numbers(v + Dotted(numbers) + suffix) == numbers
    ensures IsPrerelease(v + Dotted(numbers) + suffix) <==> suffix != ""
  {
    hide Dotted, Decimal, Split, Digits, Number, IsSuffix;
    DottedFields(numbers);
    var core := v + Dotted(numbers);
    assert IsCore(core);
    assert TrimV(core) == Dotted(numbers);
    hide IsCore;
    CoreAndSuffix(core, suffix);
    hide Fields, IsPrerelease, PrereleaseOf;
    forall i | 0 <= i < |numbers| ensures Part(Decimal(numbers[i])) == numbers[i] {
      assert numbers[i] in numbers;
      DecimalReadsBack(numbers[i]);
      DigitsOfDigits(Decimal(numbers[i]));
      WrapExactly(numbers[i]);
    }
  }

  lemma {:induction false} PaddingIsZero(a: seq<int>, b: seq<int>, i: nat)
    ensures FirstDifference(a + [0], b, i) == FirstDifference(a, b, i)
    decreases |a| + 1 + |b| - i
  {
    if i <= |a| || i < |b| { PaddingIsZero(a, b, i + 1); }
    assert At(a + [0], i) == At(a, i);
  }

  /** A further ".0" changes no comparison, on either side. */
  lemma TrailingZeroesDoNotCount(core: string, suffix: string, other: string)
    requires IsCore(core) && IsSuffix(suffix)
    ensures Compared(core + ".0" + suffix, other) == Compared(core + suffix, other)
    ensures Compared(other, core + ".0" + suffix) == Compared(other, core + suffix)
  {
    hide *;
    var longer, shorter := core + ".0" + suffix, core + suffix;
    OneMoreZero(core, suffix);
    SameLabel(core, suffix);
    PaddingIsZero(Numbers(shorter), Numbers(other), 0);
    DifferenceReverses(Numbers(longer), Numbers(other), 0);
    DifferenceReverses(Numbers(shorter), Numbers(other), 0);
    SameComparison(longer, shorter, other);
  }

  lemma OneMoreZero(core: string, suffix: string)
    requires IsCore(core) && IsSuffix(suffix)
    ensures Numbers(core + ".0" + suffix) == Numbers(core + suffix) + [0]
  {
    SameLabel(core, suffix);
    hide Fields, Part, TrimV;
  }

  /** Versions with the same label and the same first differences compare alike. */
  lemma SameComparison(a: string, b: string, other: string)
    requires IsPrerelease(a) == IsPrerelease(b) && PrereleaseOf(a) == PrereleaseOf(b)
    requires FirstDifference(Numbers(a), Numbers(other), 0) == FirstDifference(Numbers(b), Numbers(other), 0)
    requires FirstDifference(Numbers(other), Numbers(a), 0) == FirstDifference(Numbers(other), Numbers(b), 0)
    ensures Compared(a, other) == Compared(b, other) && Compared(other, a) == Compared(other, b)
  {
    hide Numbers, FirstDifference, IsPrerelease, PrereleaseOf, ComparePrerelease, Wrap;
  }

  lemma SameLabel(core: string, suffix: string)
    requires IsCore(core) && IsSuffix(suffix)
    ensures Fields(core + ".0" + suffix) == Fields(core + suffix) + ["0"] && Part("0") == 0
    ensures IsPrerelease(core + ".0" + suffix) == IsPrerelease(core + suffix)
    ensures PrereleaseOf(core + ".0" + suffix) == PrereleaseOf(core + suffix)
  {
    hide Fields, IsPrerelease, PrereleaseOf, TrimV, IsSuffix, Part;
    CoreAndSuffix(core, suffix);
    CoreAndSuffix(core + ".0", suffix);
    AnotherField(core);
    Zero();
    SplitLast(TrimV(core), '.', "0");
  }

  lemma AnotherField(core: string)
    ensures TrimV(core + ".0") == TrimV(core) + ['.'] + "0"
  {
  }

  /** A pre-release comes before its final release. */
  lemma PrereleaseComesFirst(core: string, suffix: string)
    requires IsCore(core) && IsSuffix(suffix) && suffix != ""
    ensures Compared(core + suffix, core) < 0 < Compared(core, core + suffix)
  {
    CoreAndSuffix(core, suffix);
    CoreAndSuffix(core, "");
    assert core + "" == core;
    SameNumbers(Numbers(core), 0);
  }

  lemma {:induction false} SameNumbers(a: seq<int>, i: nat)
    ensures FirstDifference(a, a, i) == (0, 0)
    decreases |a| - i
  {
    if i < |a| { SameNumbers(a, i + 1); }
  }

  // ---------------------------------------------------------- newest release

  datatype Release = Release(tagName: string, draft: bool, prerelease: bool)

  predicate Eligible(release: Release, prerelease: bool) {
    !release.draft && (!release.prerelease || prerelease)
  }

  /** Position k holds the first eligible release that none exceeds. */
  ghost predicate IsFirstMaximum(releases: seq<Release>, prerelease: bool, k: int) {
    && 0 <= k < |releases| && Eligible(releases[k], prerelease)
    && (forall j :: 0 <= j < |releases| && Eligible(releases[j], prerelease) ==>
          Precedence(TrimV(releases[j].tagName), TrimV(releases[k].tagName)) <= 0)
    && (forall j :: 0 <= j < k && Eligible(releases[j], prerelease) ==>
          Precedence(TrimV(releases[j].tagName), TrimV(releases[k].tagName)) < 0)
  }

  ghost predicate AllInRange(releases: seq<Release>, prerelease: bool) {
    forall j :: 0 <= j < |releases| && Eligible(releases[j], prerelease) ==> InRange(TrimV(releases[j].tagName))
  }

  /** The first differing numbers can be subtracted in 64 bits. */
  predicate PairFits(left: string, right: string) {
    var d := FirstDifference(Numbers(left), Numbers(right), 0);
    Fits(d.0 - d.1)
  }

  ghost predicate AllPairsFit(releases: seq<Release>, prerelease: bool) {
    forall i, j :: 0 <= i < |releases| && 0 <= j < |releases| && Eligible(releases[i], prerelease) && Eligible(releases[j], prerelease) ==>
      PairFits(TrimV(releases[i].tagName), TrimV(releases[j].tagName))
  }

  lemma InRangePairsFit(releases: seq<Release>, prerelease: bool)
    requires AllInRange(releases, prerelease)
    ensures AllPairsFit(releases, prerelease)
  {
    hide InRange, PairFits, TrimV;
    forall i, j | 0 <= i < |releases| && 0 <= j < |releases| && Eligible(releases[i], prerelease) && Eligible(releases[j], prerelease)
      ensures PairFits(TrimV(releases[i].tagName), TrimV(releases[j].tagName))
    {
      InRangePairFits(TrimV(releases[i].tagName), TrimV(releases[j].tagName));
    }
  }

  lemma InRangePairFits(a: string, b: string)
    requires InRange(a) && InRange(b)
    ensures PairFits(a, b)
  {
    NumbersInRange(a);
    NumbersInRange(b);
    hide InRange, Numbers, FirstDifference;
    FirstDifferenceFits(Numbers(a), Numbers(b), 0);
  }

  /** Where the numbers first differ, those of `tag` are smaller; where none
      differs, it is no final release of a pre-release. */
  ghost predicate NotNewer(tag: string, best: string) {
    var a, b := Numbers(tag), Numbers(best);
    && (forall i: nat :: AgreeBelow(a, b, i) ==> At(a, i) <= At(b, i))
    && ((forall j: nat :: At(a, j) == At(b, j)) && IsPrerelease(best) ==> IsPrerelease(tag))
  }

  lemma NothingNewer(tag: string, best: string)
    requires Precedence(tag, best) <= 0
    ensures NotNewer(tag, best)
  {
    hide Numbers, ComparePrerelease, FirstDifference, IsPrerelease, PrereleaseOf, At;
    var a, b := Numbers(tag), Numbers(best);
    var d := DecidingPlace(a, b);
    forall i: nat | AgreeBelow(a, b, i) && At(a, i) != At(b, i) && At(a, d) != At(b, d) ensures i == d {
      OnePlaceDecides(a, b, d, i);
    }
    hide AgreeBelow;
  }

  /** The result is the first maximum when no comparison of eligible tags can
      wrap; there is none exactly when no release is eligible. */
  method NewestRelease(releases: seq<Release>, prerelease: bool) returns (r: Result<Release>)
    ensures r.Err? <==> forall release <- releases :: !Eligible(release, prerelease)
    ensures r.Ok? ==> r.value in releases && Eligible(r.value, prerelease)
    ensures r.Ok? && AllPairsFit(releases, prerelease) ==>
      exists k :: IsFirstMaximum(releases, prerelease, k) && releases[k] == r.value
    ensures r.Err? <==> forall release <- releases :: release.draft || (release.prerelease && !prerelease)
    ensures r.Ok? ==> !r.value.draft && (!r.value.prerelease || prerelease)
    ensures r.Ok? && AllPairsFit(releases, prerelease) ==>
      forall release <- releases :: !release.draft && (!release.prerelease || prerelease) ==>
        NotNewer(TrimV(release.tagName), TrimV(r.value.tagName))
  {
    hide Orders, NotNewer, IsFirstMaximum, AllPairsFit, PairFits, Precedence, Compared, TrimV;
    var best := Release("", false, false);
    var found := false;
    ghost var k := 0;
    for i := 0 to |releases|
      invariant !found ==> forall j :: 0 <= j < i ==> !Eligible(releases[j], prerelease)
      invariant found ==> 0 <= k < i && releases[k] == best && Eligible(best, prerelease)
      invariant found && AllPairsFit(releases, prerelease) ==> IsFirstMaximum(releases[..i], prerelease, k)
    {
      var release := releases[i];
      assert releases[..i + 1] == releases[..i] + [release];
      if release.draft || (release.prerelease && !prerelease) {
        if found && AllPairsFit(releases, prerelease) { SkippedMaximum(releases[..i], prerelease, k, release); }
        continue;
      }
      var order := 0;
      if found { order := CompareVersion(TrimV(release.tagName), TrimV(best.tagName)); }
      if AllPairsFit(releases, prerelease) {
        if found { PairIsFaithful(releases, prerelease, i, k); }
        NextMaximum(releases[..i], prerelease, k, release, found);
      }
      if !found || order > 0 {
        best, found := release, true;
        k := i;
      }
    }
    assert releases[..|releases|] == releases;
    if !found { return Err("no release found"); }
    if AllPairsFit(releases, prerelease) { NoneNewer(releases, prerelease, k); }
    return Ok(best);
  }

  lemma NoneNewer(releases: seq<Release>, prerelease: bool, k: nat)
    requires IsFirstMaximum(releases, prerelease, k)
    ensures forall release <- releases :: Eligible(release, prerelease) ==> NotNewer(TrimV(release.tagName), TrimV(releases[k].tagName))
  {
    hide NotNewer, Precedence, TrimV;
    forall release <- releases | Eligible(release, prerelease)
      ensures NotNewer(TrimV(release.tagName), TrimV(releases[k].tagName))
    {
      NothingNewer(TrimV(release.tagName), TrimV(releases[k].tagName));
    }
  }

  lemma PairIsFaithful(releases: seq<Release>, prerelease: bool, i: nat, k: nat)
    requires i < |releases| && k < |releases| && AllPairsFit(releases, prerelease)
    requires Eligible(releases[i], prerelease) && Eligible(releases[k], prerelease)
    ensures var a, b := TrimV(releases[i].tagName), TrimV(releases[k].tagName);
      Sign(Compared(a, b)) == Sign(Precedence(a, b))
  {
    hide Compared, Precedence, TrimV, Numbers, FirstDifference;
    FaithfulExactlyWhenNothingWraps(TrimV(releases[i].tagName), TrimV(releases[k].tagName));
  }

  lemma SkippedMaximum(releases: seq<Release>, prerelease: bool, k: int, next: Release)
    requires !Eligible(next, prerelease) && IsFirstMaximum(releases, prerelease, k)
    ensures IsFirstMaximum(releases + [next], prerelease, k)
  {
    hide Precedence, TrimV;
  }

  lemma NextMaximum(releases: seq<Release>, prerelease: bool, k: int, next: Release, found: bool)
    requires Eligible(next, prerelease)
    requires if found then IsFirstMaximum(releases, prerelease, k) else forall release <- releases :: !Eligible(release, prerelease)
    ensures found && Precedence(TrimV(next.tagName), TrimV(releases[k].tagName)) <= 0 ==>
      IsFirstMaximum(releases + [next], prerelease, k)
    ensures found && Precedence(TrimV(next.tagName), TrimV(releases[k].tagName)) > 0 ==>
      IsFirstMaximum(releases + [next], prerelease, |releases|)
    ensures !found ==> IsFirstMaximum(releases + [next], prerelease, |releases|)
  {
    hide Precedence, TrimV;
    var tag := TrimV(next.tagName);
    PrecedenceReverses(tag, tag);
    if found && Precedence(tag, TrimV(releases[k].tagName)) > 0 { NewMaximum(releases, prerelease, k, next); }
    if !found {
      assert forall j :: 0 <= j < |releases| ==> releases[j] in releases;
    }
  }

  lemma NewMaximum(releases: seq<Release>, prerelease: bool, k: int, next: Release)
    requires Eligible(next, prerelease) && IsFirstMaximum(releases, prerelease, k)
    requires Precedence(TrimV(next.tagName), TrimV(releases[k].tagName)) > 0
    ensures IsFirstMaximum(releases + [next], prerelease, |releases|)
  {
    hide Precedence, TrimV;
    var all, tag, top := releases + [next], TrimV(next.tagName), TrimV(releases[k].tagName);
    PrecedenceReverses(tag, tag);
    forall j | 0 <= j < |releases| && Eligible(all[j], prerelease) ensures Precedence(TrimV(all[j].tagName), tag) < 0 {
      var other := TrimV(releases[j].tagName);
      PrecedenceReverses(other, tag);
      if Precedence(tag, other) <= 0 { PrecedenceTransitive(tag, other, top); }
    }
  }
}
