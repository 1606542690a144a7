/** The autostart desktop entry: what is written, and the readers that must undo it. */
module DesktopEntry {
  import opened Options
  import opened Basics
  import opened Characters

  /** Reserved inside `Exec` by the Desktop Entry Specification, and the carriage return. */
  const EXEC_RESERVED: set<char> :=
    {' ', '\t', '\n', '\r', '"', '\'', '\\', '>', '<', '~', '|', '&', ';', '$', '*', '?', '#', '(', ')', '`'}

  // ------------------------------------------------------- writing

  function QuotedCharacter(c: char): string {
    if c == '"' || c == '`' || c == '$' || c == '\\' then ['\\', c]
    else if c == '%' then "%%"
    else [c]
  }

  function QuotedBody(argument: string): string {
    if argument == "" then "" else QuotedCharacter(argument[0]) + QuotedBody(argument[1..])
  }

  predicate NeedsQuotes(argument: string) {
    argument == "" || exists i :: 0 <= i < |argument| && argument[i] in EXEC_RESERVED
  }

  function QuotedArgument(argument: string): string {
    if NeedsQuotes(argument) then "\"" + QuotedBody(argument) + "\"" else QuotedBody(argument)
  }

  function QuotedArguments(arguments: seq<string>): string
    requires arguments != []
  {
    if |arguments| == 1 then QuotedArgument(arguments[0])
    else QuotedArgument(arguments[0]) + " " + QuotedArguments(arguments[1..])
  }

  function EscapedCharacter(c: char): string {
    if c == '\\' then "\\\\"
    else if c == '\n' then "\\n"
    else if c == '\r' then "\\r"
    else if c == '\t' then "\\t"
    else [c]
  }

  function Escaped(value: string): string {
    if value == "" then "" else EscapedCharacter(value[0]) + Escaped(value[1..])
  }

  function ExecValue(executable: string, arguments: seq<string>): string {
    Escaped(QuotedArguments([executable] + arguments))
  }

  datatype AutostartConfig = AutostartConfig(displayName: string, executable: string, arguments: seq<string>)

  /** The lines of the entry, each of which is written with a newline after it. */
  function EntryLines(config: AutostartConfig): seq<string> {
    ["[Desktop Entry]",
     "Type=Application",
     "Version=1.0",
     "Name=" + Escaped(config.displayName),
     "Exec=" + ExecValue(config.executable, config.arguments),
     "Terminal=false",
     "X-GNOME-Autostart-enabled=true"]
  }

  function RenderedEntry(config: AutostartConfig): string {
    Unlines(EntryLines(config))
  }

  method QuoteExecArgument(argument: string) returns (out: string)
    ensures out == QuotedArgument(argument)
  {
    var reserved := exists i :: 0 <= i < |argument| && argument[i] in EXEC_RESERVED;
    var quoted := argument == "" || reserved;
    out := if quoted then "\"" else "";
    ghost var opening := out;
    for i := 0 to |argument|
      invariant out + QuotedBody(argument[i..]) == opening + QuotedBody(argument)
    {
      var c := argument[i];
      assert argument[i..][1..] == argument[i + 1..];
      Regroup(out, QuotedCharacter(c), QuotedBody(argument[i + 1..]));
      if c == '"' || c == '`' || c == '$' || c == '\\' {
        out := out + ['\\', c];
      } else if c == '%' {
        out := out + "%%";
      } else {
        out := out + [c];
      }
    }
    assert argument[|argument|..] == "";
    assert out == opening + QuotedBody(argument);
    if quoted {
      out := out + "\"";
    }
  }

  method EscapeDesktopValue(value: string) returns (out: string)
    ensures out == Escaped(value)
  {
    out := "";
    for i := 0 to |value|
      invariant out + Escaped(value[i..]) == Escaped(value)
    {
      var c := value[i];
      assert value[i..][1..] == value[i + 1..];
      Regroup(out, EscapedCharacter(c), Escaped(value[i + 1..]));
      if c == '\\' {
        out := out + "\\\\";
      } else if c == '\n' {
        out := out + "\\n";
      } else if c == '\r' {
        out := out + "\\r";
      } else if c == '\t' {
        out := out + "\\t";
      } else {
        out := out + [c];
      }
    }
    assert value[|value|..] == "";
  }

  method RenderExecValue(executable: string, arguments: seq<string>) returns (value: string)
    ensures value == ExecValue(executable, arguments)
  {
    hide QuotedArgument;
    var all := [executable] + arguments;
    var joined := QuoteExecArgument(executable);
    for i := 0 to |arguments|
      invariant joined == QuotedArguments(all[..i + 1])
    {
      var part := QuoteExecArgument(arguments[i]);
      joined := joined + " " + part;
      assert all[..i + 2] == all[..i + 1] + [arguments[i]];
      QuotedArgumentsOfLonger(all[..i + 1], arguments[i]);
    }
    assert all[..|all|] == all;
    value := EscapeDesktopValue(joined);
  }

  lemma {:induction false} QuotedArgumentsOfLonger(arguments: seq<string>, last: string)
    requires arguments != []
    ensures QuotedArguments(arguments + [last]) == QuotedArguments(arguments) + " " + QuotedArgument(last)
  {
    if |arguments| > 1 {
      assert (arguments + [last])[1..] == arguments[1..] + [last];
      QuotedArgumentsOfLonger(arguments[1..], last);
    } else {
      assert (arguments + [last])[1..] == [last];
    }
  }

  // ------------------------------------------------------- lines

  function LineLength(s: string): (n: nat)
    ensures n <= |s| && '\n' !in s[..n]
    ensures n < |s| ==> s[n] == '\n'
  {
    if s == "" || s[0] == '\n' then 0 else 1 + LineLength(s[1..])
  }

  /** The lines of a text, without their terminators. */
  function Lines(s: string): seq<string>
    decreases |s|
  {
    if s == "" then []
    else
      var n := LineLength(s);
      if n == |s| then [s]
      else [if n > 0 && s[n - 1] == '\r' then s[..n - 1] else s[..n]] + Lines(s[n + 1..])
  }

  /** Every line terminated. */
  function Unlines(lines: seq<string>): string {
    if lines == [] then "" else lines[0] + "\n" + Unlines(lines[1..])
  }

  predicate PlainLine(line: string) {
    '\n' !in line && '\r' !in line
  }

  lemma {:induction false} LineLengthOf(line: string, rest: string)
    requires '\n' !in line
    ensures LineLength(line + "\n" + rest) == |line|
  {
    if line != "" {
      assert line[0] in line;
      assert (line + "\n" + rest)[1..] == line[1..] + "\n" + rest;
      LineLengthOf(line[1..], rest);
    }
  }

  lemma {:induction false} LinesOfUnlines(lines: seq<string>)
    requires forall i :: 0 <= i < |lines| ==> PlainLine(lines[i])
    ensures Lines(Unlines(lines)) == lines
  {
    if lines != [] {
      var s := Unlines(lines);
      var first := lines[0];
      var n := LineLength(s);
      LineLengthOf(first, Unlines(lines[1..]));
      assert s[..n] == first;
      assert n > 0 ==> s[n - 1] in first;
      assert s[n + 1..] == Unlines(lines[1..]);
      LinesOfUnlines(lines[1..]);
    }
  }

  // ------------------------------------------------------- the enabled state

  /** The text before and after the first `=`. */
  function SplitOnce(line: string): Option<(string, string)> {
    if line == "" then None
    else if line[0] == '=' then Some(("", line[1..]))
    else
      match SplitOnce(line[1..])
      case None => None
      case Some((key, value)) => Some(([line[0]] + key, value))
  }

  lemma {:induction false} SplitOnceAt(key: string, value: string)
    requires '=' !in key
    ensures SplitOnce(key + "=" + value) == Some((key, value))
  {
    var line := key + "=" + value;
    if key == "" {
      assert line[1..] == value;
    } else {
      assert line[0] == key[0] && line[1..] == key[1..] + "=" + value;
      assert key[0] in key;
      SplitOnceAt(key[1..], value);
      assert [key[0]] + key[1..] == key;
    }
  }

  /** The two ways a desktop environment switches an entry off. */
  predicate SwitchesOff(line: string) {
    match SplitOnce(line)
    case None => false
    case Some((key, value)) =>
      || (Trim(key) == "Hidden" && AsciiLower(Trim(value)) == "true")
      || (Trim(key) == "X-GNOME-Autostart-enabled" && AsciiLower(Trim(value)) == "false")
  }

  method DesktopEntryIsEnabled(contents: string) returns (enabled: bool)
    ensures enabled <==> forall line :: line in Lines(contents) ==> !SwitchesOff(line)
  {
    enabled := true;
    var lines := Lines(contents);
    for i := 0 to |lines|
      invariant enabled <==> forall k :: 0 <= k < i ==> !SwitchesOff(lines[k])
    {
      var split := SplitOnce(lines[i]);
      if split.None? {
        continue;
      }
      var (key, value) := split.value;
      value := Trim(value);
      if Trim(key) == "Hidden" {
        enabled := enabled && AsciiLower(value) != "true";
      } else if Trim(key) == "X-GNOME-Autostart-enabled" {
        enabled := enabled && AsciiLower(value) != "false";
      }
    }
  }

  // ------------------------------------------------------- reading `Exec`

  function Unescaped(s: string): string {
    if s == "" then ""
    else if s[0] != '\\' then [s[0]] + Unescaped(s[1..])
    else if |s| == 1 then ""
    else
      [match s[1]
       case 'n' => '\n'
       case 't' => '\t'
       case 'r' => '\r'
       case other => other] + Unescaped(s[2..])
  }

  /** Splits on the characters `isSpace` accepts, outside quotes, and collapses `%%`. The
      argument read so far is `current`. */
  function Split(s: string, isSpace: char -> bool, quoting: bool, started: bool, current: string): seq<string> {
    if s == "" then (if started then [current] else [])
    else if s[0] == '"' then Split(s[1..], isSpace, !quoting, true, current)
    else if s[0] == '\\' && quoting then
      if |s| == 1 then (if started then [current] else [])
      else Split(s[2..], isSpace, quoting, true, current + [s[1]])
    else if s[0] == '%' && |s| > 1 && s[1] == '%' then
      Split(s[2..], isSpace, quoting, true, current + "%")
    else if isSpace(s[0]) && !quoting then
      (if started then [current] else []) + Split(s[1..], isSpace, false, false, "")
    else Split(s[1..], isSpace, quoting, true, current + [s[0]])
  }

  /** What a launcher that splits on `isSpace` starts for an `Exec` value. */
  function ExecArguments(value: string, isSpace: char -> bool): seq<string> {
    Split(Unescaped(value), isSpace, false, false, "")
  }

  // ------------------------------------------------------- round trip

  lemma UnescapedCharacter(c: char, rest: string)
    ensures Unescaped(EscapedCharacter(c) + rest) == [c] + Unescaped(rest)
  {
    assert (EscapedCharacter(c) + rest)[|EscapedCharacter(c)|..] == rest;
  }

  lemma {:induction false} UnescapedOfEscaped(value: string)
    ensures Unescaped(Escaped(value)) == value
  {
    if value != "" {
      hide Unescaped;
      UnescapedOfEscaped(value[1..]);
      UnescapedCharacter(value[0], Escaped(value[1..]));
      assert value == [value[0]] + value[1..];
    }
  }

  /** The separators a launcher may use: the blank between arguments, and otherwise only
      characters that force quoting. A percent sign is written doubled, so it never shows. */
  ghost predicate SplitsOnReserved(isSpace: char -> bool) {
    && isSpace(' ')
    && forall c :: isSpace(c) ==> c in EXEC_RESERVED || c == '%'
  }

  lemma SplitQuotedCharacter(c: char, rest: string, isSpace: char -> bool, current: string)
    ensures Split(QuotedCharacter(c) + rest, isSpace, true, true, current)
            == Split(rest, isSpace, true, true, current + [c])
  {
    assert (QuotedCharacter(c) + rest)[|QuotedCharacter(c)|..] == rest;
  }

  lemma {:induction false} SplitQuotedBody(argument: string, rest: string, isSpace: char -> bool, current: string)
    ensures Split(QuotedBody(argument) + rest, isSpace, true, true, current)
            == Split(rest, isSpace, true, true, current + argument)
    decreases |argument|
  {
    hide Split;
    if argument == "" {
      assert QuotedBody(argument) + rest == rest && current + argument == current;
    } else {
      var c, tail := argument[0], argument[1..];
      assert QuotedBody(argument) + rest == QuotedCharacter(c) + (QuotedBody(tail) + rest);
      SplitQuotedCharacter(c, QuotedBody(tail) + rest, isSpace, current);
      SplitQuotedBody(tail, rest, isSpace, current + [c]);
      assert current + [c] + tail == current + argument;
    }
  }

  lemma SplitBareCharacter(c: char, rest: string, isSpace: char -> bool, started: bool, current: string)
    requires SplitsOnReserved(isSpace) && c !in EXEC_RESERVED
    ensures Split(QuotedCharacter(c) + rest, isSpace, false, started, current)
            == Split(rest, isSpace, false, true, current + [c])
  {
    assert (QuotedCharacter(c) + rest)[|QuotedCharacter(c)|..] == rest;
  }

  lemma {:induction false} SplitBareBody(argument: string, rest: string, isSpace: char -> bool, started: bool,
                                        current: string)
    requires SplitsOnReserved(isSpace)
    requires argument != "" && forall i :: 0 <= i < |argument| ==> argument[i] !in EXEC_RESERVED
    ensures Split(QuotedBody(argument) + rest, isSpace, false, started, current)
            == Split(rest, isSpace, false, true, current + argument)
    decreases |argument|
  {
    hide Split, SplitsOnReserved;
    var c, tail := argument[0], argument[1..];
    assert QuotedBody(argument) + rest == QuotedCharacter(c) + (QuotedBody(tail) + rest);
    SplitBareCharacter(c, QuotedBody(tail) + rest, isSpace, started, current);
    if tail == "" {
      assert QuotedBody(tail) + rest == rest && current + [c] == current + argument;
    } else {
      SplitBareBody(tail, rest, isSpace, true, current + [c]);
      assert current + [c] + tail == current + argument;
    }
  }

  lemma SplitOne(argument: string, rest: string, isSpace: char -> bool)
    requires SplitsOnReserved(isSpace)
    ensures Split(QuotedArgument(argument) + rest, isSpace, false, false, "")
            == Split(rest, isSpace, false, true, argument)
  {
    if NeedsQuotes(argument) {
      var inside := QuotedBody(argument) + ("\"" + rest);
      assert QuotedArgument(argument) + rest == "\"" + inside;
      assert ("\"" + inside)[1..] == inside;
      SplitQuotedBody(argument, "\"" + rest, isSpace, "");
      assert ("\"" + rest)[1..] == rest;
    } else {
      SplitBareBody(argument, rest, isSpace, false, "");
    }
    assert "" + argument == argument;
  }

  lemma {:induction false} SplitQuotedArguments(arguments: seq<string>, isSpace: char -> bool)
    requires SplitsOnReserved(isSpace) && arguments != []
    ensures Split(QuotedArguments(arguments), isSpace, false, false, "") == arguments
  {
    hide Split, QuotedArgument;
    SplitBetween(isSpace, arguments[0], if |arguments| == 1 then "" else QuotedArguments(arguments[1..]));
    if |arguments| == 1 {
      SplitOne(arguments[0], "", isSpace);
      assert QuotedArgument(arguments[0]) + "" == QuotedArgument(arguments[0]);
    } else {
      var rest := " " + QuotedArguments(arguments[1..]);
      SplitOne(arguments[0], rest, isSpace);
      assert QuotedArguments(arguments) == QuotedArgument(arguments[0]) + rest;
      SplitQuotedArguments(arguments[1..], isSpace);
      assert arguments == [arguments[0]] + arguments[1..];
    }
  }

  /** An argument ends at a blank or at the end. */
  lemma SplitBetween(isSpace: char -> bool, current: string, rest: string)
    requires isSpace(' ')
    ensures Split("", isSpace, false, true, current) == [current]
    ensures Split(" " + rest, isSpace, false, true, current) == [current] + Split(rest, isSpace, false, false, "")
  {
    assert (" " + rest)[1..] == rest;
  }

  ghost predicate AlwaysReadsBack(isSpace: char -> bool) {
    forall executable: string, arguments: seq<string> ::
      ExecArguments(ExecValue(executable, arguments), isSpace) == [executable] + arguments
  }

  /** Every executable and every argument list reads back exactly, for precisely the launchers
      whose separators the writer quotes. One that also splits on, say, a no-break space breaks
      an argument holding it in two. */
  lemma ExecRoundTripsIff(isSpace: char -> bool)
    ensures AlwaysReadsBack(isSpace) <==> SplitsOnReserved(isSpace)
  {
    if SplitsOnReserved(isSpace) {
      forall executable: string, arguments: seq<string>
        ensures ExecArguments(ExecValue(executable, arguments), isSpace) == [executable] + arguments
      {
        UnescapedOfEscaped(QuotedArguments([executable] + arguments));
        SplitQuotedArguments([executable] + arguments, isSpace);
      }
    } else if !isSpace(' ') {
      UnescapedOfEscaped(QuotedArguments([""] + [""]));
      BlankMustSeparate(isSpace);
      assert |ExecArguments(ExecValue("", [""]), isSpace)| == 1;
    } else {
      var c :| isSpace(c) && c !in EXEC_RESERVED && c != '%';
      UnescapedOfEscaped(QuotedArguments([[c]] + []));
      UnquotedSeparatorIsLost(c, isSpace);
      assert ExecArguments(ExecValue([c], []), isSpace) == [];
    }
  }

  lemma BlankMustSeparate(isSpace: char -> bool)
    requires !isSpace(' ')
    ensures QuotedArguments([""] + [""]) == "\"\" \"\""
    ensures Split("\"\" \"\"", isSpace, false, false, "") == [" "]
  {
    var s := "\"\" \"\"";
    assert s[1..][1..] == " \"\"" && s[1..][0] == '"';
    assert " \"\""[1..] == "\"\"" && "\"\""[1..] == "\"" && "\""[1..] == "";
    assert "" + [' '] == " ";
    assert Split(" \"\"", isSpace, false, true, "") == Split("\"\"", isSpace, false, true, " ");
  }

  lemma UnquotedSeparatorIsLost(c: char, isSpace: char -> bool)
    requires isSpace(c) && c !in EXEC_RESERVED && c != '%'
    ensures Split([c], isSpace, false, false, "") == []
  {
  }

  // ------------------------------------------------------- the whole entry

  lemma {:induction false} EscapedIsPlain(value: string)
    ensures PlainLine(Escaped(value))
  {
    if value != "" {
      EscapedIsPlain(value[1..]);
      assert PlainLine(EscapedCharacter(value[0]));
    }
  }

  lemma ExecValueIsPlain(executable: string, arguments: seq<string>)
    ensures PlainLine(ExecValue(executable, arguments))
  {
    EscapedIsPlain(QuotedArguments([executable] + arguments));
  }

  lemma LinesArePlain(config: AutostartConfig, i: nat)
    requires i < |EntryLines(config)|
    ensures PlainLine(EntryLines(config)[i])
  {
    hide Escaped, ExecValue;
    if i == 3 {
      EscapedIsPlain(config.displayName);
      assert PlainLine("Name=");
    } else if i == 4 {
      ExecValueIsPlain(config.executable, config.arguments);
      assert PlainLine("Exec=");
    }
  }

  /** No display name, executable or argument can add a line, drop one or merge two. */
  lemma EntryHasItsLines(config: AutostartConfig)
    ensures Lines(RenderedEntry(config)) == EntryLines(config)
  {
    forall i | 0 <= i < |EntryLines(config)| ensures PlainLine(EntryLines(config)[i]) {
      LinesArePlain(config, i);
    }
    LinesOfUnlines(EntryLines(config));
  }

  /** The text after `Exec=` on the lines that have it. */
  function ExecLines(lines: seq<string>): seq<string> {
    if lines == [] then []
    else (if "Exec=" <= lines[0] then [lines[0][5..]] else []) + ExecLines(lines[1..])
  }

  lemma {:induction false} OneExecLine(lines: seq<string>, k: nat, value: string)
    requires k <= |lines| && forall i :: 0 <= i < |lines| && i != k ==> lines[i] != "" && lines[i][0] != 'E'
    requires k < |lines| ==> lines[k] == "Exec=" + value
    ensures ExecLines(lines) == if k < |lines| then [value] else []
    decreases |lines|
  {
    if lines != [] {
      var rest := lines[1..];
      OneExecLine(rest, if k == 0 then |rest| else k - 1, value);
      if k == 0 {
        assert lines[0][5..] == value;
      }
    }
  }

  /** A line whose key begins like neither switch leaves the entry on. */
  lemma KeyedLineKeepsOn(key: string, value: string)
    requires key != "" && '=' !in key && !IsWhitespace(key[0]) && key[0] != 'H'
    requires key[0] == 'X' ==> value != "" && value[0] == 't'
    ensures !SwitchesOff(key + "=" + value)
  {
    SplitOnceAt(key, value);
    TrimKeepsFirst(key);
    if key[0] == 'X' {
      TrimKeepsFirst(value);
      assert AsciiLower(Trim(value))[0] == 't';
    }
  }

  lemma {:induction false} NoKeyKeepsOn(line: string)
    requires '=' !in line
    ensures SplitOnce(line) == None && !SwitchesOff(line)
  {
    if line != "" {
      assert line[0] in line;
      NoKeyKeepsOn(line[1..]);
    }
  }

  lemma NoLineSwitchesOff(config: AutostartConfig)
    ensures forall line :: line in EntryLines(config) ==> !SwitchesOff(line)
  {
    hide SwitchesOff, Escaped, ExecValue;
    var lines := EntryLines(config);
    forall i | 0 <= i < |lines| ensures !SwitchesOff(lines[i]) {
      if i == 0 {
        NoKeyKeepsOn("[Desktop Entry]");
      } else if i == 1 {
        KeyedLineKeepsOn("Type", "Application");
        assert lines[1] == "Type" + "=" + "Application";
      } else if i == 2 {
        KeyedLineKeepsOn("Version", "1.0");
        assert lines[2] == "Version" + "=" + "1.0";
      } else if i == 3 {
        KeyedLineKeepsOn("Name", lines[3][5..]);
        assert lines[3] == "Name" + "=" + lines[3][5..];
      } else if i == 4 {
        KeyedLineKeepsOn("Exec", lines[4][5..]);
        assert lines[4] == "Exec" + "=" + lines[4][5..];
      } else if i == 5 {
        KeyedLineKeepsOn("Terminal", "false");
        assert lines[5] == "Terminal" + "=" + "false";
      } else {
        KeyedLineKeepsOn("X-GNOME-Autostart-enabled", "true");
        assert lines[6] == "X-GNOME-Autostart-enabled" + "=" + "true";
      }
    }
  }

  // ------------------------------------------------------- entries that are switched off

  /** A switch is recognised with any blanks around its key and its value, in any case of the
      value. */
  lemma SwitchesOffIff(a: string, b: string, c: string, value: string, d: string)
    requires AllBlank(a) && AllBlank(b) && AllBlank(c) && AllBlank(d) && Trimmed(value)
    ensures SwitchesOff(a + "Hidden" + b + "=" + (c + value + d)) <==> AsciiLower(value) == "true"
    ensures SwitchesOff(a + "X-GNOME-Autostart-enabled" + b + "=" + (c + value + d)) <==> AsciiLower(value) == "false"
  {
    hide SwitchesOff, AsciiLower, Trim, SplitOnce;
    BlanksHaveNoEquals(a, "Hidden", b);
    BlanksHaveNoEquals(a, "X-GNOME-Autostart-enabled", b);
    TrimBetween(a, "Hidden", b);
    TrimBetween(a, "X-GNOME-Autostart-enabled", b);
    TrimBetween(c, value, d);
    SwitchDecides(a + "Hidden" + b, c + value + d);
    SwitchDecides(a + "X-GNOME-Autostart-enabled" + b, c + value + d);
    assert "Hidden" != "X-GNOME-Autostart-enabled" by { assert "Hidden"[0] != "X-GNOME-Autostart-enabled"[0]; }
  }

  lemma BlanksHaveNoEquals(a: string, key: string, b: string)
    requires AllBlank(a) && AllBlank(b) && '=' !in key
    ensures '=' !in a + key + b
  {
  }

  lemma SwitchDecides(key: string, value: string)
    requires '=' !in key
    ensures SwitchesOff(key + "=" + value) <==>
              || (Trim(key) == "Hidden" && AsciiLower(Trim(value)) == "true")
              || (Trim(key) == "X-GNOME-Autostart-enabled" && AsciiLower(Trim(value)) == "false")
  {
    hide Trim, AsciiLower, SplitOnce;
    SplitOnceAt(key, value);
  }

  /** A desktop environment that rewrites an entry can switch it off by either line, wherever it
      stands and however lines end. */
  lemma RewrittenEntryIsOff(lines: seq<string>, ending: string, i: nat)
    requires ending == "\n" || ending == "\r\n"
    requires forall k :: 0 <= k < |lines| ==> PlainLine(lines[k])
    requires i < |lines| && (lines[i] == "Hidden=true" || lines[i] == "X-GNOME-Autostart-enabled=false")
    ensures !(forall line :: line in Lines(JoinedLines(lines, ending)) ==> !SwitchesOff(line))
  {
    hide SwitchesOff, Lines, JoinedLines;
    LinesOfJoined(lines, ending);
    HiddenSwitchesOff();
    DisabledSwitchesOff();
    assert lines[i] in lines;
  }

  lemma TrimNothing(s: string)
    requires Trimmed(s)
    ensures Trim(s) == s
  {
    TrimBetween("", s, "");
    assert "" + s + "" == s;
  }

  lemma HiddenSwitchesOff()
    ensures SwitchesOff("Hidden=true")
  {
    TrimNothing("Hidden");
    TrimNothing("true");
    assert AsciiLower("true") == "true";
    hide SwitchesOff, Trim, AsciiLower;
    SwitchDecides("Hidden", "true");
    assert "Hidden" + "=" + "true" == "Hidden=true";
  }

  lemma DisabledSwitchesOff()
    ensures SwitchesOff("X-GNOME-Autostart-enabled=false")
  {
    TrimNothing("X-GNOME-Autostart-enabled");
    TrimNothing("false");
    assert AsciiLower("false") == "false";
    hide SwitchesOff, Trim, AsciiLower;
    SwitchDecides("X-GNOME-Autostart-enabled", "false");
    assert "X-GNOME-Autostart-enabled" + "=" + "false" == "X-GNOME-Autostart-enabled=false";
  }

  function JoinedLines(lines: seq<string>, ending: string): string {
    if lines == [] then "" else lines[0] + ending + JoinedLines(lines[1..], ending)
  }

  /** A carriage return before the end of a line is not part of it. */
  lemma {:induction false} LinesOfJoined(lines: seq<string>, ending: string)
    requires ending == "\n" || ending == "\r\n"
    requires forall k :: 0 <= k < |lines| ==> PlainLine(lines[k])
    ensures Lines(JoinedLines(lines, ending)) == lines
  {
    if lines != [] {
      hide Lines, LineLength, PlainLine;
      LinesOfJoined(lines[1..], ending);
      EndingIsCut(lines[0], ending, JoinedLines(lines[1..], ending));
    }
  }

  lemma EndingIsCut(line: string, ending: string, rest: string)
    requires (ending == "\n" || ending == "\r\n") && PlainLine(line)
    ensures Lines(line + ending + rest) == [line] + Lines(rest)
  {
    hide Lines, LineLength, PlainLine;
    if ending == "\n" {
      FirstLineOf(line, line, rest);
    } else {
      assert ending == "\r" + "\n";
      assert line + ending + rest == line + "\r" + "\n" + rest;
      FirstLineOf(line, line + "\r", rest);
    }
  }

  lemma FirstLineOf(line: string, kept: string, rest: string)
    requires PlainLine(line) && (kept == line || kept == line + "\r")
    ensures Lines(kept + "\n" + rest) == [line] + Lines(rest)
  {
    var s := kept + "\n" + rest;
    LineLengthOf(kept, rest);
    assert s[..|kept|] == kept && s[|kept| + 1..] == rest;
    if kept == line {
      assert |line| > 0 ==> line[|line| - 1] in line;
    } else {
      assert s[..|kept| - 1] == line && s[|kept| - 1] == '\r';
    }
  }

  // ------------------------------------------------------- what an entry reads back as

  lemma OneExecLineInEntry(config: AutostartConfig)
    ensures ExecLines(EntryLines(config)) == [ExecValue(config.executable, config.arguments)]
  {
    OneExecLine(EntryLines(config), 4, ExecValue(config.executable, config.arguments));
  }

  /** Whatever the configuration, the entry has one `Exec` line, which starts exactly the
      configured command, the configured name, and it reads back as enabled. */
  lemma EntryReadsBack(config: AutostartConfig, isSpace: char -> bool)
    requires SplitsOnReserved(isSpace)
    ensures |ExecLines(Lines(RenderedEntry(config)))| == 1
    ensures ExecArguments(ExecLines(Lines(RenderedEntry(config)))[0], isSpace) == [config.executable] + config.arguments
    ensures forall line :: line in Lines(RenderedEntry(config)) ==> !SwitchesOff(line)
    ensures exists name :: "Name=" + name in Lines(RenderedEntry(config)) && Unescaped(name) == config.displayName
  {
    UnescapedOfEscaped(config.displayName);
    assert "Name=" + Escaped(config.displayName) == EntryLines(config)[3];
    EntryHasItsLines(config);
    ExecRoundTripsIff(isSpace);
    OneExecLineInEntry(config);
    NoLineSwitchesOff(config);
  }
}
