/**
  Building a Windows command line, and how the Microsoft C runtime takes one apart again.
 */
module ArgumentQuoting {

  // ---- building

  predicate IsSpecial(c: char) {
    c == ' ' || c == '\t' || c == '\n' || c == '\U{0B}' || c == '"'
  }

  predicate NeedsQuotes(argument: string) {
    exists k :: 0 <= k < |argument| && IsSpecial(argument[k])
  }

  function Backslashes(n: nat): string {
    seq(n, _ => '\\')
  }

  /** What stands between the quotes for the rest of an argument after `pending` backslashes. */
  function Escaped(argument: string, pending: nat): string
    decreases |argument|
  {
    if argument == "" then Backslashes(pending * 2)
    else if argument[0] == '\\' then Escaped(argument[1..], pending + 1)
    else if argument[0] == '"' then Backslashes(pending * 2 + 1) + ['"'] + Escaped(argument[1..], 0)
    else Backslashes(pending) + [argument[0]] + Escaped(argument[1..], 0)
  }

  function Quoted(argument: string): string {
    if NeedsQuotes(argument) then ['"'] + Escaped(argument, 0) + ['"'] else argument
  }

  /** An argument is put between quotes exactly when it holds a blank, a line or page break, or a quote. */
  lemma QuotedOnlyWhenNeeded(argument: string)
    ensures Quoted(argument) == argument <==> forall k | 0 <= k < |argument| :: argument[k] !in " \t\n\U{0B}\""
    ensures Quoted(argument) != argument ==> |Quoted(argument)| > |argument| && Quoted(argument)[0] == '"'
  {
    EscapedIsNoShorter(argument, 0);
    assert forall k | 0 <= k < |argument| :: IsSpecial(argument[k]) <==> argument[k] in " \t\n\U{0B}\"";
  }

  lemma {:induction false} EscapedIsNoShorter(argument: string, pending: nat)
    ensures |Escaped(argument, pending)| >= |argument| + pending
    decreases |argument|
  {
    if argument != "" {
      EscapedIsNoShorter(argument[1..], if argument[0] == '\\' then pending + 1 else 0);
    }
  }

  method ContainsSpecial(argument: string) returns (found: bool)
    ensures found <==> NeedsQuotes(argument)
  {
    for k := 0 to |argument|
      invariant forall j | 0 <= j < k :: !IsSpecial(argument[j])
    {
      if IsSpecial(argument[k]) {
        return true;
      }
    }
    return false;
  }

  method QuoteWindowsArgument(argument: string) returns (result: string)
    ensures result == Quoted(argument)
  {
    var special := ContainsSpecial(argument);
    if !special {
      return argument;
    }
    result := "\"";
    var backslashes := 0;
    for k := 0 to |argument|
      invariant result + Escaped(argument[k..], backslashes) == ['"'] + Escaped(argument, 0)
    {
      var character := argument[k];
      assert argument[k..][0] == character && argument[k..][1..] == argument[k + 1..];
      if character == '\\' {
        backslashes := backslashes + 1;
      } else if character == '"' {
        result := result + Backslashes(backslashes * 2 + 1);
        result := result + "\"";
        backslashes := 0;
      } else {
        result := result + Backslashes(backslashes);
        backslashes := 0;
        result := result + [character];
      }
    }
    result := result + Backslashes(backslashes * 2);
    result := result + "\"";
  }

  function Joined(arguments: seq<string>): string {
    if arguments == [] then ""
    else [' '] + Quoted(arguments[0]) + Joined(arguments[1..])
  }

  function CommandLine(executable: string, arguments: seq<string>): string {
    Quoted(executable) + Joined(arguments) + ['\0']
  }

  method BuildCommandLine(executable: string, arguments: seq<string>) returns (commandLine: string)
    ensures commandLine == CommandLine(executable, arguments)
  {
    commandLine := QuoteWindowsArgument(executable);
    for k := 0 to |arguments|
      invariant commandLine + Joined(arguments[k..]) == Quoted(executable) + Joined(arguments)
    {
      assert arguments[k..][0] == arguments[k] && arguments[k..][1..] == arguments[k + 1..];
      commandLine := commandLine + " ";
      var quoted := QuoteWindowsArgument(arguments[k]);
      commandLine := commandLine + quoted;
    }
    commandLine := commandLine + "\0";
  }

  lemma {:induction false} JoinedSnoc(arguments: seq<string>, last: string)
    ensures Joined(arguments + [last]) == Joined(arguments) + [' '] + Quoted(last)
  {
    if arguments == [] {
      assert [] + [last] == [last] && [last][1..] == [];
    } else {
      assert (arguments + [last])[1..] == arguments[1..] + [last];
      JoinedSnoc(arguments[1..], last);
    }
  }

  /** A line is the quoted program and a terminator; one argument more is one blank and it, before the terminator. */
  lemma LineByArguments(executable: string, arguments: seq<string>, last: string)
    ensures CommandLine(executable, []) == Quoted(executable) + "\0"
    ensures var line := CommandLine(executable, arguments);
      && line != "" && line[|line| - 1] == '\0'
      && CommandLine(executable, arguments + [last]) == line[..|line| - 1] + " " + Quoted(last) + "\0"
  {
    JoinedSnoc(arguments, last);
    var line := CommandLine(executable, arguments);
    assert line[..|line| - 1] == Quoted(executable) + Joined(arguments);
    assert CommandLine(executable, []) == Quoted(executable) + "" + ['\0'];
  }

  // ---- taking apart, by the argument rules of the Microsoft C runtime

  predicate IsBlank(c: char) {
    c == ' ' || c == '\t'
  }

  datatype Scanned = Scanned(text: string, rest: string)

  function Prepend(front: string, scanned: Scanned): Scanned {
    Scanned(front + scanned.text, scanned.rest)
  }

  /** The program name: quotes only switch blanks off and on, and backslashes mean nothing. */
  function ScanProgram(s: string, quoted: bool): (r: Scanned)
    ensures |r.rest| <= |s|
  {
    if s == "" then Scanned("", "")
    else if s[0] == '"' then ScanProgram(s[1..], !quoted)
    else if !quoted && IsBlank(s[0]) then Scanned("", s[1..])
    else Prepend([s[0]], ScanProgram(s[1..], quoted))
  }

  /**
    One argument. Before a quote, 2n backslashes are n and the quote is a delimiter, 2n + 1 are n
    and a literal quote; elsewhere backslashes are themselves. Inside quotes a doubled quote is one.
   */
  function ScanArgument(s: string, backslashes: nat, quoted: bool): (r: Scanned)
    ensures |r.rest| <= |s|
    ensures s != "" && !IsBlank(s[0]) ==> |r.rest| < |s|
  {
    if s == "" then Scanned(Backslashes(backslashes), "")
    else if s[0] == '\\' then ScanArgument(s[1..], backslashes + 1, quoted)
    else if s[0] == '"' then
      if backslashes % 2 == 1 then
        Prepend(Backslashes(backslashes / 2) + ['"'], ScanArgument(s[1..], 0, quoted))
      else if quoted && |s| > 1 && s[1] == '"' then
        Prepend(Backslashes(backslashes / 2) + ['"'], ScanArgument(s[2..], 0, quoted))
      else
        Prepend(Backslashes(backslashes / 2), ScanArgument(s[1..], 0, !quoted))
    else if !quoted && IsBlank(s[0]) then Scanned(Backslashes(backslashes), s)
    else Prepend(Backslashes(backslashes) + [s[0]], ScanArgument(s[1..], 0, quoted))
  }

  function SplitArguments(s: string): seq<string>
    decreases |s|
  {
    if s == "" then []
    else if IsBlank(s[0]) then SplitArguments(s[1..])
    else
      var scanned := ScanArgument(s, 0, false);
      [scanned.text] + SplitArguments(scanned.rest)
  }

  /** The text before the terminator. */
  function UpToNul(s: string): string {
    if s == "" || s[0] == '\0' then "" else [s[0]] + UpToNul(s[1..])
  }

  function Split(commandLine: string): seq<string> {
    var program := ScanProgram(UpToNul(commandLine), false);
    [program.text] + SplitArguments(program.rest)
  }

  // ---- an argument comes back

  /** What may follow an argument on the line: nothing, or the blank before the next one. */
  predicate Follows(rest: string) {
    rest == "" || rest[0] == ' '
  }

  lemma {:induction false} ScanBackslashes(n: nat, s: string, pending: nat, quoted: bool)
    ensures ScanArgument(Backslashes(n) + s, pending, quoted) == ScanArgument(s, pending + n, quoted)
  {
    var text := Backslashes(n) + s;
    if n == 0 {
      assert text == s;
    } else {
      assert text[0] == '\\' && text[1..] == Backslashes(n - 1) + s;
      ScanBackslashes(n - 1, s, pending + 1, quoted);
    }
  }

  lemma ScanStep(n: nat, c: char, more: string, quoted: bool)
    requires c != '\\'
    ensures ScanArgument(Backslashes(n) + [c] + more, 0, quoted) == ScanArgument([c] + more, n, quoted)
    ensures ([c] + more)[0] == c && ([c] + more)[1..] == more
  {
    assert Backslashes(n) + [c] + more == Backslashes(n) + ([c] + more);
    ScanBackslashes(n, [c] + more, 0, quoted);
  }

  /** The closing quote, after twice the argument's own last backslashes. */
  lemma ScanClosingQuote(n: nat, rest: string)
    requires Follows(rest)
    ensures ScanArgument(Backslashes(n * 2) + ['"'] + rest, 0, true) == Scanned(Backslashes(n), rest)
  {
    ScanStep(n * 2, '"', rest, true);
    Nothing(Backslashes(n), "", Backslashes(0));
    assert ScanArgument(rest, 0, false) == Scanned(Backslashes(0), rest);
    assert n * 2 / 2 == n;
  }

  /** A quote of the argument's own, after twice the backslashes before it and one more. */
  lemma ScanOwnQuote(n: nat, more: string, scanned: Scanned)
    requires ScanArgument(more, 0, true) == scanned
    ensures ScanArgument(Backslashes(n * 2 + 1) + ['"'] + more, 0, true) == Prepend(Backslashes(n) + ['"'], scanned)
  {
    ScanStep(n * 2 + 1, '"', more, true);
  }

  /** Any other character, after the backslashes before it. */
  lemma ScanCharacter(n: nat, c: char, more: string, quoted: bool, scanned: Scanned)
    requires c != '\\' && c != '"' && (quoted || !IsBlank(c)) && ScanArgument(more, 0, quoted) == scanned
    ensures ScanArgument(Backslashes(n) + [c] + more, 0, quoted) == Prepend(Backslashes(n) + [c], scanned)
  {
    ScanStep(n, c, more, quoted);
  }

  lemma Regroup(n: nat, c: char, tail: string)
    ensures Backslashes(n) + [c] + (Backslashes(0) + tail) == Backslashes(n) + ([c] + tail)
    ensures Backslashes(n + 1) + tail == Backslashes(n) + (['\\'] + tail)
  {}

  lemma {:induction false} EscapedScansBack(argument: string, pending: nat, rest: string)
    requires Follows(rest)
    ensures ScanArgument(Escaped(argument, pending) + ['"'] + rest, 0, true)
            == Scanned(Backslashes(pending) + argument, rest)
    decreases |argument|
  {
    if argument == "" {
      ScanClosingQuote(pending, rest);
      assert Backslashes(pending) + argument == Backslashes(pending);
    } else {
      var c, tail := argument[0], argument[1..];
      assert argument == [c] + tail;
      Regroup(pending, c, tail);
      if c == '\\' {
        EscapedScansBack(tail, pending + 1, rest);
      } else {
        EscapedScansBack(tail, 0, rest);
        EscapedScanStep(pending, c, Escaped(tail, 0), rest, Scanned(Backslashes(0) + tail, rest));
      }
    }
  }

  lemma EscapedScanStep(pending: nat, c: char, escaped: string, rest: string, scanned: Scanned)
    requires c != '\\' && ScanArgument(escaped + ['"'] + rest, 0, true) == scanned
    ensures ScanArgument(Backslashes(if c == '"' then pending * 2 + 1 else pending) + [c] + escaped + ['"'] + rest, 0, true)
            == Prepend(Backslashes(pending) + [c], scanned)
  {
    var n := if c == '"' then pending * 2 + 1 else pending;
    var more := escaped + ['"'] + rest;
    assert Backslashes(n) + [c] + escaped + ['"'] + rest == Backslashes(n) + [c] + more;
    if c == '"' {
      ScanOwnQuote(pending, more, scanned);
    } else {
      ScanCharacter(pending, c, more, true, scanned);
    }
  }

  lemma {:induction false} PlainScansBack(argument: string, pending: nat, rest: string)
    requires Follows(rest) && !NeedsQuotes(argument)
    ensures ScanArgument(Backslashes(pending) + argument + rest, 0, false) == Scanned(Backslashes(pending) + argument, rest)
    decreases |argument|
  {
    if argument == "" {
      assert Backslashes(pending) + argument == Backslashes(pending);
      ScanBackslashes(pending, rest, 0, false);
    } else {
      var c, tail := argument[0], argument[1..];
      assert argument == [c] + tail;
      assert !IsSpecial(c) && forall k | 0 <= k < |tail| :: tail[k] == argument[k + 1];
      Regroup(pending, c, tail);
      if c == '\\' {
        PlainScansBack(tail, pending + 1, rest);
      } else {
        PlainScansBack(tail, 0, rest);
        PlainScanStep(pending, c, tail, rest);
      }
    }
  }

  lemma PlainScanStep(pending: nat, c: char, tail: string, rest: string)
    requires c != '\\' && c != '"' && !IsBlank(c)
    requires ScanArgument(Backslashes(0) + tail + rest, 0, false) == Scanned(Backslashes(0) + tail, rest)
    ensures ScanArgument(Backslashes(pending) + ([c] + tail) + rest, 0, false) == Scanned(Backslashes(pending) + ([c] + tail), rest)
  {
    Nothing(tail, rest, Backslashes(0));
    ScanCharacter(pending, c, tail + rest, false, Scanned(tail, rest));
    Reassociate(Backslashes(pending), c, tail, rest);
  }

  lemma Nothing(tail: string, rest: string, empty: string)
    requires |empty| == 0
    ensures empty + tail + rest == tail + rest && empty + tail == tail && tail + empty == tail
  {}

  lemma Reassociate(slashes: string, c: char, tail: string, rest: string)
    ensures slashes + ([c] + tail) + rest == slashes + [c] + (tail + rest)
    ensures slashes + [c] + tail == slashes + ([c] + tail)
  {}

  /** A nonempty argument, quoted, is one argument again and ends where it should. */
  lemma ArgumentScansBack(argument: string, rest: string)
    requires Follows(rest) && argument != ""
    ensures Quoted(argument) + rest != "" && !IsBlank((Quoted(argument) + rest)[0])
    ensures ScanArgument(Quoted(argument) + rest, 0, false) == Scanned(argument, rest)
  {
    assert Backslashes(0) + argument == argument;
    if NeedsQuotes(argument) {
      var inside := Escaped(argument, 0) + ['"'] + rest;
      EscapedScansBack(argument, 0, rest);
      assert Quoted(argument) + rest == ['"'] + inside;
      OpeningQuote(inside);
    } else {
      assert !IsSpecial(argument[0]);
      PlainScansBack(argument, 0, rest);
      assert Backslashes(0) + argument + rest == argument + rest;
    }
  }

  lemma OpeningQuote(inside: string)
    ensures ScanArgument(['"'] + inside, 0, false) == ScanArgument(inside, 0, true)
  {
    assert (['"'] + inside)[1..] == inside;
    var scanned := ScanArgument(inside, 0, true);
    assert Backslashes(0) + scanned.text == scanned.text;
  }

  function NonEmpty(arguments: seq<string>): seq<string> {
    if arguments == [] then []
    else (if arguments[0] == "" then [] else [arguments[0]]) + NonEmpty(arguments[1..])
  }

  /** Empty arguments leave two blanks side by side, and vanish. */
  lemma {:induction false} ArgumentsSplitBack(arguments: seq<string>)
    ensures Follows(Joined(arguments)) && SplitArguments(Joined(arguments)) == NonEmpty(arguments)
  {
    if arguments != [] {
      var rest := Joined(arguments[1..]);
      ArgumentsSplitBack(arguments[1..]);
      var text := Quoted(arguments[0]) + rest;
      assert Joined(arguments) == [' '] + text;
      assert ([' '] + text)[1..] == text;
      if arguments[0] == "" {
        assert !NeedsQuotes("");
        assert text == rest;
      } else {
        ArgumentScansBack(arguments[0], rest);
      }
    }
  }

  // ---- the program comes back

  function AfterBlank(rest: string): string {
    if rest == "" then "" else rest[1..]
  }

  lemma {:induction false} PlainProgram(executable: string, rest: string)
    requires Follows(rest) && !NeedsQuotes(executable)
    ensures ScanProgram(executable + rest, false) == Scanned(executable, AfterBlank(rest))
  {
    if executable == "" {
      assert executable + rest == rest;
    } else {
      var tail := executable[1..];
      assert !IsSpecial(executable[0]) && forall k | 0 <= k < |tail| :: tail[k] == executable[k + 1];
      assert (executable + rest)[1..] == tail + rest;
      PlainProgram(tail, rest);
      assert [executable[0]] + tail == executable;
    }
  }

  lemma {:induction false} QuotedProgram(inside: string, rest: string)
    requires Follows(rest) && '"' !in inside
    ensures ScanProgram(inside + ['"'] + rest, true) == Scanned(inside, AfterBlank(rest))
  {
    var text := inside + ['"'] + rest;
    if inside == "" {
      assert text[0] == '"' && text[1..] == rest;
    } else {
      assert text[0] == inside[0] && text[1..] == inside[1..] + ['"'] + rest;
      QuotedProgram(inside[1..], rest);
      assert [inside[0]] + inside[1..] == inside;
    }
  }

  /** A program name is read without its backslashes being halved again. */
  lemma {:induction false} EscapedProgram(executable: string, pending: nat)
    requires '"' !in executable
    ensures '"' !in Escaped(executable, pending)
    ensures executable != "" && executable[|executable| - 1] != '\\' ==>
              Escaped(executable, pending) == Backslashes(pending) + executable
    ensures executable == "" ==> |Escaped(executable, pending)| == pending * 2
    ensures executable != "" && executable[|executable| - 1] == '\\' ==>
              |Escaped(executable, pending)| > pending + |executable|
    decreases |executable|
  {
    if executable != "" {
      var c, tail := executable[0], executable[1..];
      assert executable == [c] + tail;
      Regroup(pending, c, tail);
      EscapedProgram(tail, if c == '\\' then pending + 1 else 0);
      assert tail != "" ==> tail[|tail| - 1] == executable[|executable| - 1];
    }
  }

  lemma {:induction false} ProgramHasNoQuotes(s: string, quoted: bool)
    ensures '"' !in ScanProgram(s, quoted).text
    ensures '\0' !in s ==> '\0' !in ScanProgram(s, quoted).text && '\0' !in ScanProgram(s, quoted).rest
  {
    if s != "" {
      assert s == [s[0]] + s[1..];
      ProgramHasNoQuotes(s[1..], if s[0] == '"' then !quoted else quoted);
    }
  }

  /** What the runtime reads back as this program's name. */
  predicate ProgramSurvives(executable: string) {
    '"' !in executable && (NeedsQuotes(executable) ==> executable[|executable| - 1] != '\\')
  }

  lemma QuotedProgramScansBack(executable: string, rest: string)
    requires Follows(rest) && NeedsQuotes(executable) && '"' !in executable
    ensures ScanProgram(Quoted(executable) + rest, false) == Scanned(Escaped(executable, 0), AfterBlank(rest))
    ensures Escaped(executable, 0) == executable <==> executable[|executable| - 1] != '\\'
  {
    EscapedProgram(executable, 0);
    var inside := Escaped(executable, 0);
    QuotedProgram(inside, rest);
    BetweenQuotes(inside, rest);
    assert Backslashes(0) + executable == executable;
  }

  lemma BetweenQuotes(inside: string, rest: string)
    ensures (['"'] + inside + ['"'] + rest)[0] == '"'
    ensures (['"'] + inside + ['"'] + rest)[1..] == inside + ['"'] + rest
  {}

  lemma ProgramScansBack(executable: string, rest: string)
    requires Follows(rest)
    ensures ScanProgram(Quoted(executable) + rest, false).text == executable <==> ProgramSurvives(executable)
    ensures ProgramSurvives(executable) ==>
              ScanProgram(Quoted(executable) + rest, false) == Scanned(executable, AfterBlank(rest))
  {
    ProgramHasNoQuotes(Quoted(executable) + rest, false);
    if !NeedsQuotes(executable) {
      forall k | 0 <= k < |executable| ensures executable[k] != '"' {
        assert !IsSpecial(executable[k]);
      }
      PlainProgram(executable, rest);
    } else if '"' !in executable {
      QuotedProgramScansBack(executable, rest);
    }
  }

  // ---- the terminator

  lemma {:induction false} NothingPastNul(s: string)
    ensures '\0' !in UpToNul(s)
  {
    if s != "" && s[0] != '\0' {
      NothingPastNul(s[1..]);
    }
  }

  lemma {:induction false} EverythingBeforeNul(line: string)
    requires '\0' !in line
    ensures UpToNul(line + ['\0']) == line
  {
    if line != "" {
      assert (line + ['\0'])[1..] == line[1..] + ['\0'];
      EverythingBeforeNul(line[1..]);
    }
  }

  lemma {:induction false} ArgumentHasNoNul(s: string, backslashes: nat, quoted: bool)
    requires '\0' !in s
    ensures '\0' !in ScanArgument(s, backslashes, quoted).text && '\0' !in ScanArgument(s, backslashes, quoted).rest
    decreases |s|
  {
    if s != "" {
      if s[0] == '\\' {
        ArgumentHasNoNul(s[1..], backslashes + 1, quoted);
      } else if s[0] == '"' && backslashes % 2 == 0 && quoted && |s| > 1 && s[1] == '"' {
        ArgumentHasNoNul(s[2..], 0, quoted);
      } else {
        ArgumentHasNoNul(s[1..], 0, quoted);
        ArgumentHasNoNul(s[1..], 0, !quoted);
      }
    }
  }

  lemma {:induction false} ArgumentsHaveNoNul(s: string)
    requires '\0' !in s
    ensures forall a | a in SplitArguments(s) :: '\0' !in a
    decreases |s|
  {
    if s != "" {
      if IsBlank(s[0]) {
        ArgumentsHaveNoNul(s[1..]);
      } else {
        ArgumentHasNoNul(s, 0, false);
        ArgumentsHaveNoNul(ScanArgument(s, 0, false).rest);
      }
    }
  }

  lemma {:induction false} EscapingAddsNoNul(argument: string, pending: nat)
    requires '\0' !in argument
    ensures '\0' !in Escaped(argument, pending)
    decreases |argument|
  {
    if argument != "" {
      EscapingAddsNoNul(argument[1..], if argument[0] == '\\' then pending + 1 else 0);
    }
  }

  lemma {:induction false} JoiningAddsNoNul(arguments: seq<string>)
    requires forall a | a in arguments :: '\0' !in a
    ensures '\0' !in Joined(arguments)
  {
    if arguments != [] {
      EscapingAddsNoNul(arguments[0], 0);
      JoiningAddsNoNul(arguments[1..]);
    }
  }

  // ---- the whole line

  lemma {:induction false} NothingWasEmpty(arguments: seq<string>)
    ensures |NonEmpty(arguments)| <= |arguments|
    ensures (forall k | 0 <= k < |arguments| :: arguments[k] != "") ==> NonEmpty(arguments) == arguments
    ensures "" !in NonEmpty(arguments)
  {
    if arguments != [] {
      var tail := arguments[1..];
      NothingWasEmpty(tail);
      assert forall k | 0 <= k < |tail| :: tail[k] == arguments[k + 1];
    }
  }

  /** Without a terminator inside, what comes back is the program and the arguments that are not empty. */
  lemma SplitOfCommandLine(executable: string, arguments: seq<string>)
    requires '\0' !in executable && forall a | a in arguments :: '\0' !in a
    ensures Split(CommandLine(executable, arguments))[0] == executable <==> ProgramSurvives(executable)
    ensures ProgramSurvives(executable) ==>
              Split(CommandLine(executable, arguments)) == [executable] + NonEmpty(arguments)
  {
    var rest := Joined(arguments);
    var line := Quoted(executable) + rest;
    EscapingAddsNoNul(executable, 0);
    JoiningAddsNoNul(arguments);
    EverythingBeforeNul(line);
    ArgumentsSplitBack(arguments);
    ProgramScansBack(executable, rest);
    assert SplitArguments(AfterBlank(rest)) == SplitArguments(rest);
  }

  /**
    The command line comes apart into exactly the program and arguments it was built from when the
    program's name survives and no argument is empty, and only then.
   */
  lemma CommandLineSplitsBack(executable: string, arguments: seq<string>)
    ensures Split(CommandLine(executable, arguments)) == [executable] + arguments
            <==> && ProgramSurvives(executable) && '\0' !in executable
                 && forall a | a in arguments :: a != "" && '\0' !in a
  {
    var line := CommandLine(executable, arguments);
    var split := Split(line);
    if split == [executable] + arguments {
      NothingPastNul(line);
      ProgramHasNoQuotes(UpToNul(line), false);
      ArgumentsHaveNoNul(ScanProgram(UpToNul(line), false).rest);
      assert split[0] == executable && split[1..] == arguments;
    }
    if '\0' !in executable && forall a | a in arguments :: '\0' !in a {
      SplitOfCommandLine(executable, arguments);
      NothingWasEmpty(arguments);
      assert ProgramSurvives(executable) ==> split[1..] == NonEmpty(arguments);
      assert ([executable] + arguments)[1..] == arguments;
    }
  }
}
