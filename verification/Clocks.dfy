/** Clock texts such as "07:30" and the small parsers they need. */
module Clocks {
  import opened Text
  import opened Config

  /** strings.Split on a single character: always at least one piece. */
  function Split(s: string, sep: char): (r: seq<string>)
    ensures |r| >= 1
    ensures forall piece <- r :: sep !in piece
  {
    if s == "" then [""]
    else
      var r := Split(s[1..], sep);
      if s[0] == sep then [""] + r
      else
        assert r[0] in r;
        [[s[0]] + r[0]] + r[1..]
  }

  lemma {:induction false} OnePiece(s: string, sep: char)
    requires sep !in s
    ensures Split(s, sep) == [s]
  {
    if s != "" {
      OnePiece(s[1..], sep);
      assert [s[0]] + s[1..] == s;
    }
  }

  lemma {:induction false} SplitLast(s: string, sep: char, last: string)
    requires sep !in last
    ensures Split(s + [sep] + last, sep) == Split(s, sep) + [last]
  {
    if s == "" {
      OnePiece(last, sep);
      assert ([sep] + last)[1..] == last;
    } else {
      assert (s + [sep] + last)[1..] == s[1..] + [sep] + last;
      SplitLast(s[1..], sep, last);
    }
  }

  predicate IsDigit(c: char) { '0' <= c <= '9' }

  predicate AllDigits(s: string) {
    forall c <- s :: IsDigit(c)
  }

  function Number(s: string): nat
    requires AllDigits(s)
  {
    if s == "" then 0
    else
      assert s[|s| - 1] in s;
      10 * Number(s[..|s| - 1]) + (s[|s| - 1] - '0') as nat
  }

  function Decimal(n: nat): string {
    if n < 10 then [('0' as int + n) as char] else Decimal(n / 10) + [('0' as int + n % 10) as char]
  }

  lemma {:induction false} DecimalReadsBack(n: nat)
    ensures Decimal(n) != "" && AllDigits(Decimal(n)) && Number(Decimal(n)) == n
  {
    if n >= 10 {
      DecimalReadsBack(n / 10);
      var s := Decimal(n);
      assert s[..|s| - 1] == Decimal(n / 10);
    } else {
      var s := Decimal(n);
      assert s[..|s| - 1] == "";
    }
  }

  const MAX_INT: int := 0x7FFF_FFFF_FFFF_FFFF

  /** strconv.Atoi: a sign, digits, and the range of a 64-bit integer. */
  function Atoi(s: string): (r: Option<int>)
  {
    var signed := s != "" && (s[0] == '+' || s[0] == '-');
    var digits := if signed then s[1..] else s;
    if digits == "" || !AllDigits(digits) then None
    else
      var value := if signed && s[0] == '-' then -(Number(digits) as int) else Number(digits);
      if -MAX_INT - 1 <= value <= MAX_INT then Some(value) else None
  }

  /** Hour and minute of the first two of n pieces between colons. */
  function HourMinute(parts: seq<string>): (r: Option<int>)
    ensures r.Some? ==> 0 <= r.value < 1440
  {
    if |parts| < 2 then None
    else
      var hour, minute := Atoi(parts[0]), Atoi(parts[1]);
      if hour.None? || minute.None? || !(0 <= hour.value <= 23) || !(0 <= minute.value <= 59) then None
      else Some(hour.value * 60 + minute.value)
  }

  /** The scheduler's parser: HH:MM or HH:MM:SS, seconds ignored. */
  function ParseClock(value: string): (r: Option<int>)
    ensures r.Some? ==> 0 <= r.value < 1440
  {
    var parts := Split(TrimSpace(value), ':');
    if |parts| < 2 || |parts| > 3 then None else HourMinute(parts)
  }

  /** Two or three pieces between colons, an hour below 24 and a minute below 60. */
  lemma ClockExactly(value: string, minute: int)
    ensures ParseClock(value) == Some(minute) <==>
      var parts := Split(TrimSpace(value), ':');
      2 <= |parts| <= 3 && 0 <= minute < 1440
      && Atoi(parts[0]) == Some(minute / 60) && Atoi(parts[1]) == Some(minute % 60)
  {
    hide Split, TrimSpace, Atoi;
  }

  /** A rule bound: a clock text, or whatever ResolveClock makes of it. */
  function RuleClock(k: KioskConfig, value: string, day: int): Option<int> {
    if ParseClock(value).Some? then ParseClock(value) else k.resolve(value, day)
  }

  /** The validator's idea of HH:MM: two pieces of two characters each. */
  predicate ValidClock(value: string) {
    var parts := Split(TrimSpace(value), ':');
    |parts| == 2 && |parts[0]| == 2 && |parts[1]| == 2 && HourMinute(parts).Some?
  }

  /** The overlap check's parser, which drops errors. */
  function ClockMinutes(value: string): int {
    var parts := Split(TrimSpace(value), ':');
    if |parts| != 2 then 0 else OrZero(Atoi(parts[0])) * 60 + OrZero(Atoi(parts[1]))
  }

  function OrZero(n: Option<int>): int {
    match n case Some(v) => v case None => 0
  }

  /** On valid clocks the scheduler's parser and the overlap check's agree. */
  lemma ParsersAgree(value: string)
    requires ValidClock(value)
    ensures ParseClock(value) == Some(ClockMinutes(value)) && 0 <= ClockMinutes(value) < 1440
  {
  }
}
