/** Running a command as root: the argument list handed to sudo, or the one
    command line handed to the shell behind su. */
module PrivilegedCommand {
  import opened Text

  // ------------------------------------------------------- the shell's side

  /** Characters that mean something to the shell outside quotes: the operators
      and expansions of section 2.2 of the POSIX Shell Command Language. */
  predicate IsSpecial(c: char) {
    c in {'|', '&', ';', '<', '>', '(', ')', '$', '`', '\n', '*', '?', '[', '#', '~', '=', '%'}
  }

  datatype Quoting = Unquoted | SingleQuoted | DoubleQuoted

  /** Splits a command line into words by the quoting rules of sections 2.2.1 to
      2.2.3; None when a quote is left open or the line would be more than a
      list of literal words. `word` is the word being read, if any. */
  function Words(line: string, quoting: Quoting, word: Option<string>): Option<seq<string>> {
    if line == "" then
      if quoting != Unquoted then None else Some(if word.None? then [] else [word.value])
    else
      var c, rest := line[0], line[1..];
      var soFar := if word.None? then "" else word.value;
      match quoting
      case SingleQuoted =>
        if c == '\'' then Words(rest, Unquoted, Some(soFar)) else Words(rest, SingleQuoted, Some(soFar + [c]))
      case DoubleQuoted =>
        if c == '"' then Words(rest, Unquoted, Some(soFar))
        else if c == '$' || c == '`' then None
        else if c == '\\' && rest != "" && rest[0] == '\n' then Words(rest[1..], DoubleQuoted, Some(soFar))
        else if c == '\\' && rest != "" && rest[0] in {'$', '`', '"', '\\'} then Words(rest[1..], DoubleQuoted, Some(soFar + [rest[0]]))
        else Words(rest, DoubleQuoted, Some(soFar + [c]))
      case Unquoted =>
        if c == ' ' || c == '\t' then
          var more := Words(rest, Unquoted, None);
          if word.None? || more.None? then more else Some([word.value] + more.value)
        else if c == '\'' then Words(rest, SingleQuoted, Some(soFar))
        else if c == '"' then Words(rest, DoubleQuoted, Some(soFar))
        else if c == '\\' then
          if rest == "" then None
          else if rest[0] == '\n' then Words(rest[1..], Unquoted, word)
          else Words(rest[1..], Unquoted, Some(soFar + [rest[0]]))
        else if IsSpecial(c) then None
        else Words(rest, Unquoted, Some(soFar + [c]))
  }

  function Tokenise(line: string): Option<seq<string>> { Words(line, Unquoted, None) }

  // ----------------------------------------------------- the program's side

  const QUOTE: string := "'"
  const ESCAPED_QUOTE: string := "'\"'\"'"

  /** strings.ReplaceAll of a single quote. */
  function EscapeQuotes(s: string): string {
    if s == "" then "" else (if s[0] == '\'' then ESCAPED_QUOTE else [s[0]]) + EscapeQuotes(s[1..])
  }

  function Quoted(part: string): string { QUOTE + EscapeQuotes(part) + QUOTE }

  /** strings.Join with blanks. */
  function Joined(parts: seq<string>): string {
    if parts == [] then "" else if |parts| == 1 then parts[0] else parts[0] + " " + Joined(parts[1..])
  }

  function QuotedAll(parts: seq<string>): seq<string> {
    seq(|parts|, i requires 0 <= i < |parts| => Quoted(parts[i]))
  }

  datatype Mode = Sudo | Su | OtherMode(name: string)

  datatype Invocation = Invocation(name: string, args: seq<string>, input: string)

  /** Behind su, the shell reads back exactly the command and its arguments,
      whatever characters they hold; behind sudo they are passed as they are. */
  method BuildPrivilegedCommand(mode: Mode, password: string, command: string, args: seq<string>)
    returns (r: Result<Invocation>)
    ensures r.Err? <==> mode.OtherMode?
    ensures mode.Su? ==> r.value.name == "su" && r.value.input == password + "\n"
    ensures mode.Su? ==> |r.value.args| == 4 && r.value.args[..3] == ["-", "root", "-c"]
    ensures mode.Su? ==> Tokenise(r.value.args[3]) == Some([command] + args)
    ensures mode.Sudo? ==> r.value.name == "sudo" && r.value.input == if password == "" then "" else password + "\n"
    ensures mode.Sudo? ==> r.value.args == (if password == "" then ["-n"] else ["-S", "-p", ""]) + [command] + args
  {
    match mode
    case Sudo =>
      var sudoArgs, input := ["-n"], "";
      if password != "" {
        sudoArgs := ["-S", "-p", ""];
        input := password + "\n";
      }
      return Ok(Invocation("sudo", sudoArgs + [command] + args, input));
    case Su =>
      var parts := [command] + args;
      var quoted := [];
      for i := 0 to |parts|
        invariant |quoted| == i && forall j :: 0 <= j < i ==> quoted[j] == Quoted(parts[j])
      {
        quoted := quoted + [Quoted(parts[i])];
      }
      assert quoted == QuotedAll(parts);
      ShellReadsBack(parts);
      return Ok(Invocation("su", ["-", "root", "-c", Joined(quoted)], password + "\n"));
    case OtherMode(name) =>
      return Err("unsupported privilege mode: " + name);
  }

  // --------------------------------------------------------- the round trip

  /** Inside single quotes the escaped text reads as the text itself. */
  lemma {:induction false} ReadsEscaped(s: string, rest: string, word: string)
    ensures Words(EscapeQuotes(s) + QUOTE + rest, SingleQuoted, Some(word)) == Words(rest, Unquoted, Some(word + s))
  {
    if s == "" {
      assert EscapeQuotes(s) + QUOTE + rest == ['\''] + rest;
      assert word + s == word;
    } else {
      var tail := EscapeQuotes(s[1..]) + QUOTE + rest;
      ReadsEscaped(s[1..], rest, word + [s[0]]);
      assert word + [s[0]] + s[1..] == word + s;
      if s[0] == '\'' {
        assert EscapeQuotes(s) + QUOTE + rest == ESCAPED_QUOTE + tail;
        ReadsEscapedQuote(tail, word);
      } else {
        assert EscapeQuotes(s) + QUOTE + rest == [s[0]] + tail;
      }
    }
  }

  lemma ReadsEscapedQuote(tail: string, word: string)
    ensures Words(ESCAPED_QUOTE + tail, SingleQuoted, Some(word)) == Words(tail, SingleQuoted, Some(word + ['\'']))
  {
    var a, b, c, d := "'" + tail, "\"'" + tail, "'\"'" + tail, "\"'\"'" + tail;
    assert ESCAPED_QUOTE + tail == ['\''] + d && d == ['"'] + c && c == ['\''] + b && b == ['"'] + a && a == ['\''] + tail;
    assert (['\''] + d)[1..] == d && (['"'] + c)[1..] == c && (['\''] + b)[1..] == b && (['"'] + a)[1..] == a && (['\''] + tail)[1..] == tail;
    assert Words(a, Unquoted, Some(word + ['\''])) == Words(tail, SingleQuoted, Some(word + ['\'']));
    assert Words(b, DoubleQuoted, Some(word + ['\''])) == Words(a, Unquoted, Some(word + ['\'']));
    assert Words(c, DoubleQuoted, Some(word)) == Words(b, DoubleQuoted, Some(word + ['\'']));
    assert Words(d, Unquoted, Some(word)) == Words(c, DoubleQuoted, Some(word));
  }

  lemma ReadsQuoted(part: string, rest: string)
    ensures Words(Quoted(part) + rest, Unquoted, None) == Words(rest, Unquoted, Some(part))
  {
    var tail := EscapeQuotes(part) + QUOTE + rest;
    assert Quoted(part) + rest == ['\''] + tail;
    assert Words(['\''] + tail, Unquoted, None) == Words(tail, SingleQuoted, Some(""));
    ReadsEscaped(part, rest, "");
    assert "" + part == part;
  }

  /** The quoted and joined list is read back word for word. */
  lemma {:induction false} ShellReadsBack(parts: seq<string>)
    ensures Tokenise(Joined(QuotedAll(parts))) == Some(parts)
  {
    if parts != [] {
      var tail := QuotedAll(parts[1..]);
      assert QuotedAll(parts)[1..] == tail;
      if |parts| == 1 {
        ReadsQuoted(parts[0], "");
        assert Joined(QuotedAll(parts)) == Quoted(parts[0]) == Quoted(parts[0]) + "";
        assert Words("", Unquoted, Some(parts[0])) == Some([parts[0]]) && parts == [parts[0]];
      } else {
        var rest := " " + Joined(tail);
        ReadsQuoted(parts[0], rest);
        assert Joined(QuotedAll(parts)) == Quoted(parts[0]) + rest;
        assert rest[1..] == Joined(tail);
        ShellReadsBack(parts[1..]);
        assert [parts[0]] + parts[1..] == parts;
      }
    }
  }
}
