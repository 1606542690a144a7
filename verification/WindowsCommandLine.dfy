/** The single string Windows stores for launch at login, and the rule that reads it back. */
module WindowsCommandLine {

  function Backslashes(count: nat): string {
    seq(count, _ => '\\')
  }

  predicate NeedsQuotes(argument: string) {
    argument == "" || ' ' in argument || '\t' in argument || '"' in argument
  }

  /** The inside of a quoted argument, after `pending` backslashes that are not written yet:
      a run is doubled before a quote, the closing one included, and only there. */
  function QuotedBody(argument: string, pending: nat): string {
    if argument == "" then Backslashes(pending * 2)
    else if argument[0] == '\\' then QuotedBody(argument[1..], pending + 1)
    else if argument[0] == '"' then Backslashes(pending * 2 + 1) + "\"" + QuotedBody(argument[1..], 0)
    else Backslashes(pending) + [argument[0]] + QuotedBody(argument[1..], 0)
  }

  function Quoted(argument: string): string {
    if NeedsQuotes(argument) then "\"" + QuotedBody(argument, 0) + "\"" else argument
  }

  function RunCommand(arguments: seq<string>): string
    requires arguments != []
  {
    if |arguments| == 1 then Quoted(arguments[0])
    else Quoted(arguments[0]) + " " + RunCommand(arguments[1..])
  }

  method QuoteWindowsArgument(argument: string) returns (out: string)
    ensures out == Quoted(argument)
  {
    if argument != "" && !(' ' in argument || '\t' in argument || '"' in argument) {
      return argument;
    }

    out := "\"";
    var pendingBackslashes := 0;
    for i := 0 to |argument|
      invariant out + QuotedBody(argument[i..], pendingBackslashes) == "\"" + QuotedBody(argument, 0)
    {
      var character := argument[i];
      assert argument[i..][1..] == argument[i + 1..];
      if character == '\\' {
        pendingBackslashes := pendingBackslashes + 1;
      } else if character == '"' {
        out := PushBackslashes(out, pendingBackslashes * 2 + 1);
        pendingBackslashes := 0;
        out := out + [character];
      } else {
        out := PushBackslashes(out, pendingBackslashes);
        pendingBackslashes := 0;
        out := out + [character];
      }
    }

    assert argument[|argument|..] == "";
    out := PushBackslashes(out, pendingBackslashes * 2);
    out := out + "\"";
  }

  method PushBackslashes(out: string, count: nat) returns (longer: string)
    ensures longer == out + Backslashes(count)
  {
    longer := out + Backslashes(count);
  }

  method WindowsRunCommand(executable: string, arguments: seq<string>) returns (command: string)
    ensures command == RunCommand([executable] + arguments)
  {
    var all := [executable] + arguments;
    command := QuoteWindowsArgument(executable);
    for i := 0 to |arguments|
      invariant command == RunCommand(all[..i + 1])
    {
      var part := QuoteWindowsArgument(arguments[i]);
      command := command + " " + part;
      assert all[..i + 2] == all[..i + 1] + [arguments[i]];
      RunCommandOfLonger(all[..i + 1], arguments[i]);
    }
    assert all[..|all|] == all;
  }

  lemma {:induction false} RunCommandOfLonger(arguments: seq<string>, last: string)
    requires arguments != []
    ensures RunCommand(arguments + [last]) == RunCommand(arguments) + " " + Quoted(last)
  {
    if |arguments| > 1 {
      assert (arguments + [last])[1..] == arguments[1..] + [last];
      RunCommandOfLonger(arguments[1..], last);
    } else {
      assert (arguments + [last])[1..] == [last];
    }
  }

  // ------------------------------------------------------- the reader

  function BackslashRun(s: string): (n: nat)
    ensures n <= |s|
    ensures forall i :: 0 <= i < n ==> s[i] == '\\'
    ensures n < |s| ==> s[n] != '\\'
  {
    if s == "" || s[0] != '\\' then 0 else 1 + BackslashRun(s[1..])
  }

  /** The argument rule of `CommandLineToArgvW`, with the argument read so far in `current`:
      before a quote, 2n backslashes are n and the quote toggles quoting, 2n+1 are n and the
      quote is literal; all other backslashes are literal. */
  function Arguments(s: string, quoting: bool, started: bool, current: string): seq<string>
    decreases |s|
  {
    if s == "" then (if started then [current] else [])
    else if s[0] == '"' then Arguments(s[1..], !quoting, true, current)
    else if s[0] == '\\' then
      var n := BackslashRun(s);
      if n < |s| && s[n] == '"' then
        if n % 2 == 0 then Arguments(s[n..], quoting, true, current + Backslashes(n / 2))
        else Arguments(s[n + 1..], quoting, true, current + Backslashes(n / 2) + "\"")
      else Arguments(s[n..], quoting, true, current + Backslashes(n))
    else if (s[0] == ' ' || s[0] == '\t') && !quoting then
      (if started then [current] else []) + Arguments(s[1..], false, false, "")
    else Arguments(s[1..], quoting, true, current + [s[0]])
  }

  function CommandLineToArguments(command: string): seq<string> {
    Arguments(command, false, false, "")
  }

  // ------------------------------------------------------- round trip

  lemma {:induction false} RunOfBackslashes(n: nat, rest: string)
    requires rest != "" ==> rest[0] != '\\'
    ensures BackslashRun(Backslashes(n) + rest) == n
  {
    var s := Backslashes(n) + rest;
    assert forall i :: 0 <= i < n ==> s[i] == '\\';
    assert n < |s| ==> s[n] == rest[0];
  }

  /** What the reader does with a run of backslashes. */
  lemma ReadRun(n: nat, rest: string, quoting: bool, started: bool, current: string)
    requires n > 0 && (rest != "" ==> rest[0] != '\\')
    ensures Arguments(Backslashes(n) + rest, quoting, started, current)
            == if rest != "" && rest[0] == '"' then
                 if n % 2 == 0 then Arguments(rest, quoting, true, current + Backslashes(n / 2))
                 else Arguments(rest[1..], quoting, true, current + Backslashes(n / 2) + "\"")
               else Arguments(rest, quoting, true, current + Backslashes(n))
  {
    hide BackslashRun;
    var s := Backslashes(n) + rest;
    RunOfBackslashes(n, rest);
    assert s[0] == '\\' && s[n..] == rest;
    if rest != "" {
      assert s[n] == rest[0] && s[n + 1..] == rest[1..];
    }
  }

  /** Inside quotes, `n` backslashes that no quote follows stand for themselves. */
  lemma ReadLiteralRun(n: nat, rest: string, quoting: bool, current: string)
    requires rest != "" && rest[0] != '\\' && rest[0] != '"'
    ensures Arguments(Backslashes(n) + rest, quoting, true, current)
            == Arguments(rest, quoting, true, current + Backslashes(n))
  {
    hide Arguments;
    if n > 0 {
      ReadRun(n, rest, quoting, true, current);
    } else {
      assert Backslashes(n) + rest == rest && current + Backslashes(n) == current;
    }
  }

  /** `2n` backslashes before a quote are `n`, and the quote keeps its meaning. */
  lemma ReadDoubledRun(n: nat, rest: string, quoting: bool, current: string)
    requires rest != "" && rest[0] == '"'
    ensures Arguments(Backslashes(n * 2) + rest, quoting, true, current)
            == Arguments(rest, quoting, true, current + Backslashes(n))
  {
    hide Arguments;
    if n > 0 {
      ReadRun(n * 2, rest, quoting, true, current);
    } else {
      assert Backslashes(n * 2) + rest == rest && current + Backslashes(n) == current;
    }
  }

  /** `2n+1` backslashes before a quote are `n` and the quote itself. */
  lemma ReadEscapedQuote(n: nat, rest: string, quoting: bool, current: string)
    ensures Arguments(Backslashes(n * 2 + 1) + "\"" + rest, quoting, true, current)
            == Arguments(rest, quoting, true, current + Backslashes(n) + "\"")
  {
    hide Arguments;
    assert Backslashes(n * 2 + 1) + "\"" + rest == Backslashes(n * 2 + 1) + ("\"" + rest);
    ReadRun(n * 2 + 1, "\"" + rest, quoting, true, current);
    assert ("\"" + rest)[1..] == rest;
  }

  lemma {:induction false} ReadQuotedBody(argument: string, pending: nat, rest: string, current: string)
    ensures Arguments(QuotedBody(argument, pending) + "\"" + rest, true, true, current)
            == Arguments(rest, false, true, current + Backslashes(pending) + argument)
    decreases |argument|
  {
    if argument == "" {
      ReadDoubledRun(pending, "\"" + rest, true, current);
      assert QuotedBody(argument, pending) + "\"" + rest == Backslashes(pending * 2) + ("\"" + rest);
      assert ("\"" + rest)[1..] == rest;
      assert current + Backslashes(pending) + "" == current + Backslashes(pending);
    } else {
      var c, tail := argument[0], argument[1..];
      assert argument == [c] + tail;
      if c == '\\' {
        ReadQuotedBody(tail, pending + 1, rest, current);
        assert current + Backslashes(pending + 1) + tail == current + Backslashes(pending) + argument;
      } else if c == '"' {
        var after := QuotedBody(tail, 0) + "\"" + rest;
        assert QuotedBody(argument, pending) + "\"" + rest == Backslashes(pending * 2 + 1) + "\"" + after;
        ReadEscapedQuote(pending, after, true, current);
        ReadQuotedBody(tail, 0, rest, current + Backslashes(pending) + "\"");
        assert current + Backslashes(pending) + "\"" + Backslashes(0) + tail
               == current + Backslashes(pending) + argument;
      } else {
        var after := QuotedBody(tail, 0) + "\"" + rest;
        assert QuotedBody(argument, pending) + "\"" + rest == Backslashes(pending) + ([c] + after);
        ReadLiteralRun(pending, [c] + after, true, current);
        assert ([c] + after)[1..] == after;
        ReadQuotedBody(tail, 0, rest, current + Backslashes(pending) + [c]);
        assert current + Backslashes(pending) + [c] + Backslashes(0) + tail
               == current + Backslashes(pending) + argument;
      }
    }
  }

  predicate Bare(argument: string) {
    forall i :: 0 <= i < |argument| ==> argument[i] != ' ' && argument[i] != '\t' && argument[i] != '"'
  }

  lemma {:induction false} ReadBare(argument: string, rest: string, started: bool, current: string)
    requires argument != "" && Bare(argument)
    requires rest != "" ==> rest[0] == ' '
    ensures Arguments(argument + rest, false, started, current) == Arguments(rest, false, true, current + argument)
    decreases |argument|
  {
    var n := if argument[0] == '\\' then BackslashRun(argument) else 1;
    var head, tail := argument[..n], argument[n..];
    assert argument == head + tail && argument + rest == head + (tail + rest);
    if argument[0] == '\\' {
      assert head == Backslashes(n);
      assert tail != "" ==> tail[0] == argument[n];
      ReadRun(n, tail + rest, false, started, current);
    } else {
      assert head == [argument[0]];
      ReadBareCharacter(argument[0], tail + rest, started, current);
    }
    hide Arguments;
    if tail == "" {
      assert tail + rest == rest && head == argument;
    } else {
      ReadBare(tail, rest, true, current + head);
      assert current + head + tail == current + argument;
    }
  }

  lemma ReadBareCharacter(c: char, rest: string, started: bool, current: string)
    requires c != ' ' && c != '\t' && c != '"' && c != '\\'
    ensures Arguments([c] + rest, false, started, current) == Arguments(rest, false, true, current + [c])
  {
    assert ([c] + rest)[1..] == rest;
  }

  lemma ReadOpeningQuote(inside: string)
    ensures Arguments("\"" + inside, false, false, "") == Arguments(inside, true, true, "")
  {
    assert ("\"" + inside)[1..] == inside;
  }

  lemma ReadOne(argument: string, rest: string)
    requires rest != "" ==> rest[0] == ' '
    ensures Arguments(Quoted(argument) + rest, false, false, "") == Arguments(rest, false, true, argument)
  {
    hide QuotedBody;
    if NeedsQuotes(argument) {
      var inside := QuotedBody(argument, 0) + "\"" + rest;
      assert Quoted(argument) + rest == "\"" + inside;
      ReadOpeningQuote(inside);
      ReadQuotedBody(argument, 0, rest, "");
      assert "" + Backslashes(0) + argument == argument;
    } else {
      assert Bare(argument) by {
        forall i | 0 <= i < |argument| ensures argument[i] != ' ' && argument[i] != '\t' && argument[i] != '"' {
          assert argument[i] in argument;
        }
      }
      ReadBare(argument, rest, false, "");
      assert "" + argument == argument;
    }
  }

  /** Reading the command gives back exactly the executable and the arguments, empty ones
      and ones full of quotes and backslashes included. */
  lemma {:induction false} RunCommandRoundTrips(arguments: seq<string>)
    requires arguments != []
    ensures CommandLineToArguments(RunCommand(arguments)) == arguments
  {
    if |arguments| == 1 {
      ReadOne(arguments[0], "");
      assert Quoted(arguments[0]) + "" == Quoted(arguments[0]);
    } else {
      var rest := " " + RunCommand(arguments[1..]);
      ReadOne(arguments[0], rest);
      assert RunCommand(arguments) == Quoted(arguments[0]) + rest;
      assert rest[1..] == RunCommand(arguments[1..]);
      RunCommandRoundTrips(arguments[1..]);
      assert arguments == [arguments[0]] + arguments[1..];
    }
  }

  // ------------------------------------------------------- the rule for the first token

  function QuoteAt(s: string): (at: nat)
    ensures at <= |s| && '"' !in s[..at] && (at < |s| ==> s[at] == '"')
  {
    if s == "" || s[0] == '"' then 0 else 1 + QuoteAt(s[1..])
  }

  /** The first space, tab or other control character. */
  function BlankAt(s: string): (at: nat)
    ensures at <= |s| && forall i :: 0 <= i < at ==> s[i] > ' '
  {
    if s == "" || s[0] <= ' ' then 0 else 1 + BlankAt(s[1..])
  }

  /** `CommandLineToArgvW` takes its first token for a path, in which nothing is escaped: a quoted
      one ends at the next quote, any other at the first blank or control character. */
  function SystemArguments(command: string): seq<string> {
    if command != "" && command[0] == '"' then
      var inside := command[1..];
      var end := QuoteAt(inside);
      [inside[..end]] + CommandLineToArguments(inside[if end < |inside| then end + 1 else end..])
    else
      var end := BlankAt(command);
      [command[..end]] + CommandLineToArguments(command[end..])
  }

  predicate EndsInBackslash(s: string) {
    s != "" && s[|s| - 1] == '\\'
  }

  predicate HasControls(s: string) {
    exists i :: 0 <= i < |s| && s[i] <= ' '
  }

  lemma {:induction false} BlankAfter(word: string, rest: string)
    requires !HasControls(word)
    requires rest != "" ==> rest[0] == ' '
    ensures BlankAt(word + rest) == |word|
  {
    if word == "" {
      assert word + rest == rest;
    } else {
      assert (word + rest)[1..] == word[1..] + rest;
      BlankAfter(word[1..], rest);
    }
  }

  lemma {:induction false} QuoteAfter(text: string, rest: string)
    requires '"' !in text
    ensures QuoteAt(text + "\"" + rest) == |text|
  {
    if text == "" {
      assert text + "\"" + rest == "\"" + rest;
    } else {
      assert (text + "\"" + rest)[1..] == text[1..] + "\"" + rest;
      QuoteAfter(text[1..], rest);
    }
  }

  /** The backslashes at the end of `argument`, after `pending` of them before it. */
  function TrailingRun(argument: string, pending: nat): (n: nat)
    ensures argument != "" ==> (n > 0 <==> EndsInBackslash(argument))
  {
    if argument == "" then pending
    else TrailingRun(argument[1..], if argument[0] == '\\' then pending + 1 else 0)
  }

  /** Without quotes inside, quoting only doubles the trailing run. */
  lemma {:induction false} BodyWithoutQuotes(argument: string, pending: nat)
    requires '"' !in argument
    ensures QuotedBody(argument, pending)
            == Backslashes(pending) + argument + Backslashes(TrailingRun(argument, pending))
  {
    if argument == "" {
      assert Backslashes(pending) + "" + Backslashes(pending) == Backslashes(pending * 2);
    } else {
      var c, tail := argument[0], argument[1..];
      assert argument == [c] + tail && c in argument;
      if c == '\\' {
        BodyWithoutQuotes(tail, pending + 1);
        assert Backslashes(pending + 1) + tail == Backslashes(pending) + argument;
      } else {
        BodyWithoutQuotes(tail, 0);
        assert Backslashes(pending) + [c] + (Backslashes(0) + tail) == Backslashes(pending) + argument;
        assert Backslashes(pending) + [c] + (Backslashes(0) + tail + Backslashes(TrailingRun(tail, 0)))
               == Backslashes(pending) + [c] + (Backslashes(0) + tail) + Backslashes(TrailingRun(tail, 0));
      }
    }
  }

  /** A path the first-token rule reads back: without quotes, without a backslash at the end if it
      has to be quoted, and without control characters if it has not. */
  predicate PlainPath(executable: string) {
    '"' !in executable && if NeedsQuotes(executable) then !EndsInBackslash(executable) else !HasControls(executable)
  }

  lemma BareFirstToken(executable: string, rest: string)
    requires !NeedsQuotes(executable) && (rest != "" ==> rest[0] == ' ')
    ensures !HasControls(executable) ==>
              SystemArguments(Quoted(executable) + rest) == [executable] + CommandLineToArguments(rest)
    ensures HasControls(executable) ==> SystemArguments(Quoted(executable) + rest)[0] != executable
  {
    hide BlankAt, QuoteAt, Arguments, QuotedBody;
    var command := Quoted(executable) + rest;
    assert command[0] == executable[0] && executable[0] in executable;
    if HasControls(executable) {
      FirstTokenHasNoControls(command);
    } else {
      BlankAfter(executable, rest);
      assert command[..|executable|] == executable && command[|executable|..] == rest;
    }
  }

  lemma FirstTokenHasNoControls(command: string)
    requires command != "" && command[0] != '"'
    ensures !HasControls(SystemArguments(command)[0])
  {
  }

  lemma QuotedFirstToken(text: string, rest: string)
    requires '"' !in text
    ensures SystemArguments("\"" + (text + "\"" + rest)) == [text] + CommandLineToArguments(rest)
  {
    hide BlankAt, QuoteAt, Arguments;
    var inside := text + "\"" + rest;
    QuoteAfter(text, rest);
    assert ("\"" + inside)[1..] == inside;
    assert inside[..|text|] == text && inside[|text| + 1..] == rest;
  }

  lemma FirstTokenHasNoQuote(inside: string)
    ensures '"' !in SystemArguments("\"" + inside)[0]
  {
    assert ("\"" + inside)[1..] == inside;
  }

  lemma QuotesAreLost(executable: string, rest: string)
    requires '"' in executable
    ensures SystemArguments(Quoted(executable) + rest)[0] != executable
  {
    hide QuotedBody, SystemArguments;
    var inside := QuotedBody(executable, 0) + "\"" + rest;
    assert Quoted(executable) + rest == "\"" + inside;
    FirstTokenHasNoQuote(inside);
  }

  /** Where nothing is escaped, a quoted path reads as itself and its trailing run once more. */
  lemma QuotedPath(executable: string) returns (text: string)
    requires NeedsQuotes(executable) && '"' !in executable
    ensures Quoted(executable) == "\"" + text + "\"" && '"' !in text
    ensures text == executable <==> !EndsInBackslash(executable)
  {
    hide QuotedBody, TrailingRun;
    var run := Backslashes(TrailingRun(executable, 0));
    text := executable + run;
    BodyWithoutQuotes(executable, 0);
    assert Backslashes(0) + executable == executable;
    if executable == "" {
      NoTrailingRun();
    }
    assert |text| == |executable| + TrailingRun(executable, 0);
  }

  lemma NoTrailingRun()
    ensures TrailingRun("", 0) == 0
  {
  }

  lemma QuotedPathToken(executable: string, rest: string)
    requires NeedsQuotes(executable) && '"' !in executable
    ensures !EndsInBackslash(executable) ==>
              SystemArguments(Quoted(executable) + rest) == [executable] + CommandLineToArguments(rest)
    ensures EndsInBackslash(executable) ==> SystemArguments(Quoted(executable) + rest)[0] != executable
  {
    hide *;
    var text := QuotedPath(executable);
    assert Quoted(executable) + rest == "\"" + (text + "\"" + rest);
    QuotedFirstToken(text, rest);
  }

  /** What the first-token rule finds before `rest`. */
  lemma FirstTokenIff(executable: string, rest: string)
    requires rest != "" ==> rest[0] == ' '
    ensures PlainPath(executable) ==>
              SystemArguments(Quoted(executable) + rest) == [executable] + CommandLineToArguments(rest)
    ensures !PlainPath(executable) ==> SystemArguments(Quoted(executable) + rest)[0] != executable
  {
    hide Quoted, SystemArguments, CommandLineToArguments, EndsInBackslash, NeedsQuotes;
    if '"' in executable {
      QuotesAreLost(executable, rest);
    } else if NeedsQuotes(executable) {
      QuotedPathToken(executable, rest);
    } else {
      BareFirstToken(executable, rest);
    }
  }

  /** Under the system's own rule for the first token the list is read back for exactly the
      executables that are plain paths, whatever the arguments. */
  lemma SystemRoundTripIff(executable: string, arguments: seq<string>)
    ensures SystemArguments(RunCommand([executable] + arguments)) == [executable] + arguments
            <==> PlainPath(executable)
  {
    hide SystemArguments, PlainPath, Quoted, Arguments;
    var all := [executable] + arguments;
    assert all[1..] == arguments;
    var rest := if arguments == [] then "" else " " + RunCommand(arguments);
    assert RunCommand(all) == Quoted(executable) + rest;
    FirstTokenIff(executable, rest);
    if arguments != [] {
      RunCommandRoundTrips(arguments);
    }
    BlankIsSkipped(if arguments == [] then "" else RunCommand(arguments));
  }

  lemma BlankIsSkipped(command: string)
    ensures CommandLineToArguments(" " + command) == CommandLineToArguments(command)
    ensures CommandLineToArguments("") == []
  {
    assert (" " + command)[1..] == command;
  }
}
