/** Reading the changed lines of a unified diff, one line at a time. */
module UnifiedDiff {
  import opened Options
  import opened Decimals

  const MAXIMUM_DIFF_BYTES: nat := 67_108_864
  const MAXIMUM_DIFF_FILES: nat := 20_000
  const MAXIMUM_CHANGED_LINES_PER_FILE: nat := 500_000

  /** Line numbers are 32-bit and wrap round. */
  const LINE_NUMBERS: nat := 0x1_0000_0000

  type ChangedLines = map<string, set<nat>>

  // ---- text

  predicate StartsWith(s: string, prefix: string) {
    |s| >= |prefix| && s[..|prefix|] == prefix
  }

  /** The first place a character stands at, or the length. */
  function IndexOf(s: string, c: char): (i: nat)
    ensures i <= |s| && (i < |s| ==> s[i] == c)
  {
    if s == "" || s[0] == c then 0 else IndexOf(s[1..], c) + 1
  }

  /** The first place two characters stand at together, or the length. */
  function IndexOfPair(s: string, c: char, d: char): (i: nat)
    ensures i <= |s| && (i < |s| ==> i + 1 < |s| && s[i] == c && s[i + 1] == d)
  {
    if |s| < 2 then |s|
    else if s[0] == c && s[1] == d then 0
    else IndexOfPair(s[1..], c, d) + 1
  }

  function TrimTrailing(line: string): (r: string)
    ensures |r| <= |line|
  {
    if line != "" && (line[|line| - 1] == '\r' || line[|line| - 1] == '\n') then TrimTrailing(line[..|line| - 1])
    else line
  }

  function UntilTab(text: string): string {
    text[..IndexOf(text, '\t')]
  }

  function StripDiffPrefix(path: string): string {
    if StartsWith(path, "b/") || StartsWith(path, "a/") then path[2..] else path
  }

  function NormalizeSeparators(path: string): (r: string)
    ensures |r| == |path|
  {
    if path == "" then "" else [if path[0] == '\\' then '/' else path[0]] + NormalizeSeparators(path[1..])
  }

  function ParseUnsigned(text: string): Option<nat> {
    if text != "" && AllDigits(text) && NumeralValue(text) < LINE_NUMBERS then Some(NumeralValue(text)) else None
  }

  /** The new file's first line, from a hunk header. */
  function ParseHunkStart(line: string): Option<nat> {
    var plus := IndexOfPair(line, ' ', '+');
    if !StartsWith(line, "@@ -") || plus == |line| then None
    else
      var rest := line[plus + 2..];
      var end := IndexOf(rest, ' ');
      if end == |rest| then None
      else
        var span := rest[..end];
        ParseUnsigned(span[..IndexOf(span, ',')])
  }

  // ---- one line after another

  datatype Outcome<T> = Going(state: T) | MalformedDiff | LimitExceeded

  datatype State = State(files: ChangedLines, currentFile: string, nextLine: nat, inHunk: bool)

  const START := State(map[], "", 0, false)

  /** Records one changed line, unless that would pass a limit. */
  function Record(files: ChangedLines, path: string, line: nat): Outcome<ChangedLines> {
    if |files| >= MAXIMUM_DIFF_FILES && path !in files then LimitExceeded
    else
      var lines := if path in files then files[path] else {};
      if |lines| >= MAXIMUM_CHANGED_LINES_PER_FILE then LimitExceeded
      else Going(files[path := lines + {line}])
  }

  function Advanced(s: State): State {
    State(s.files, s.currentFile, (s.nextLine + 1) % LINE_NUMBERS, s.inHunk)
  }

  function OutOfHunk(s: State): State {
    State(s.files, s.currentFile, s.nextLine, false)
  }

  function NewFile(header: string): string {
    var path := UntilTab(header[if |header| < 4 then |header| else 4..]);
    if path == "/dev/null" then "" else NormalizeSeparators(StripDiffPrefix(path))
  }

  function Step(s: State, line: string): Outcome<State> {
    if StartsWith(line, "+++ ") then Going(State(s.files, NewFile(line), s.nextLine, false))
    else if StartsWith(line, "--- ") || StartsWith(line, "diff ") || StartsWith(line, "index ") then Going(OutOfHunk(s))
    else if StartsWith(line, "@@") then
      match ParseHunkStart(line)
      case None => MalformedDiff
      case Some(start) => Going(State(s.files, s.currentFile, start, true))
    else if !s.inHunk || s.currentFile == "" then Going(s)
    else if StartsWith(line, "+") then
      match Record(s.files, s.currentFile, s.nextLine)
      case Going(files) => Going(Advanced(State(files, s.currentFile, s.nextLine, true)))
      case MalformedDiff => MalformedDiff
      case LimitExceeded => LimitExceeded
    else if StartsWith(line, "-") || StartsWith(line, "\\") then Going(s)
    else if StartsWith(line, " ") || line == "" then Going(Advanced(s))
    else Going(OutOfHunk(s))
  }

  function Run(s: State, lines: seq<string>): Outcome<State>
    decreases |lines|
  {
    if lines == [] then Going(s)
    else
      match Step(s, TrimTrailing(lines[0]))
      case Going(next) => Run(next, lines[1..])
      case MalformedDiff => MalformedDiff
      case LimitExceeded => LimitExceeded
  }

  /** The text between newlines; what follows the last one counts even when it is empty. */
  function Lines(bytes: string): seq<string>
    decreases |bytes|
  {
    var i := IndexOf(bytes, '\n');
    if i == |bytes| then [bytes] else [bytes[..i]] + Lines(bytes[i + 1..])
  }

  function Changes(outcome: Outcome<State>): Outcome<ChangedLines> {
    match outcome
    case Going(s) => Going(s.files)
    case MalformedDiff => MalformedDiff
    case LimitExceeded => LimitExceeded
  }

  function Parse(bytes: string): Outcome<ChangedLines> {
    if |bytes| > MAXIMUM_DIFF_BYTES then LimitExceeded else Changes(Run(START, Lines(bytes)))
  }

  method Trim(line: string) returns (r: string)
    ensures r == TrimTrailing(line)
  {
    r := line;
    while r != "" && (r[|r| - 1] == '\r' || r[|r| - 1] == '\n')
      invariant TrimTrailing(r) == TrimTrailing(line)
      decreases |r|
    {
      r := r[..|r| - 1];
    }
  }

  /** What the reader ends with, from this state and offset on. */
  ghost function RunFrom(s: State, bytes: string, offset: nat): Outcome<State> {
    if offset > |bytes| then Going(s) else Run(s, Lines(bytes[offset..]))
  }

  lemma RunOne(s: State, line: string)
    ensures Run(s, [line]) == Step(s, TrimTrailing(line))
  {
    var next := Step(s, TrimTrailing(line));
    if next.Going? {
      assert [line][1..] == [] && Run(next.state, []) == next;
    }
  }

  /** After one line, the rest. */
  ghost function Resumed(result: Outcome<State>, bytes: string, offset: nat): Outcome<State> {
    match result
    case Going(s) => RunFrom(s, bytes, offset)
    case MalformedDiff => MalformedDiff
    case LimitExceeded => LimitExceeded
  }

  lemma RunFromStart(bytes: string)
    ensures RunFrom(START, bytes, 0) == Run(START, Lines(bytes))
  {
    assert bytes[0..] == bytes;
  }

  lemma RunFromNext(s: State, bytes: string, offset: nat, end: nat)
    requires offset <= |bytes| && end == offset + IndexOf(bytes[offset..], '\n')
    ensures end <= |bytes|
    ensures RunFrom(s, bytes, offset) == Resumed(Step(s, TrimTrailing(bytes[offset..end])), bytes, end + 1)
  {
    var rest, line := bytes[offset..], bytes[offset..end];
    assert rest[..end - offset] == line;
    if end < |bytes| {
      assert rest[end - offset + 1..] == bytes[end + 1..];
      RunCons(s, line, Lines(bytes[end + 1..]), Lines(rest));
    } else {
      assert rest == line;
      RunOne(s, line);
    }
  }

  lemma ResumesAfter(s: State, bytes: string, offset: nat, end: nat, line: string, result: Outcome<State>)
    requires offset <= |bytes| && end == offset + IndexOf(bytes[offset..], '\n')
    requires line == TrimTrailing(bytes[offset..end]) && result == Step(s, line)
    ensures RunFrom(s, bytes, offset) == Resumed(result, bytes, end + 1)
  {
    RunFromNext(s, bytes, offset, end);
  }

  lemma RunCons(s: State, line: string, lines: seq<string>, all: seq<string>)
    requires all == [line] + lines
    ensures Run(s, all) == match Step(s, TrimTrailing(line))
                           case Going(next) => Run(next, lines)
                           case MalformedDiff => MalformedDiff
                           case LimitExceeded => LimitExceeded
  {
    assert all[0] == line && all[1..] == lines;
  }

  method RecordLine(files: ChangedLines, path: string, line: nat) returns (recorded: Outcome<ChangedLines>)
    ensures recorded == Record(files, path, line)
  {
    if |files| >= MAXIMUM_DIFF_FILES && path !in files {
      return LimitExceeded;
    }
    var lines := if path in files then files[path] else {};
    if |lines| >= MAXIMUM_CHANGED_LINES_PER_FILE {
      return LimitExceeded;
    }
    return Going(files[path := lines + {line}]);
  }

  /** What one line does to the current file, its next line, the hunk and the lines recorded. */
  method ReadLine(s: State, line: string) returns (result: Outcome<State>)
    ensures result == Step(s, line)
  {
    var files, currentFile, nextLine, inHunk := s.files, s.currentFile, s.nextLine, s.inHunk;
    if StartsWith(line, "+++ ") {
      currentFile := NewFile(line);
      inHunk := false;
    } else if StartsWith(line, "--- ") || StartsWith(line, "diff ") || StartsWith(line, "index ") {
      inHunk := false;
    } else if StartsWith(line, "@@") {
      var start := ParseHunkStart(line);
      if start.None? {
        return MalformedDiff;
      }
      nextLine := start.value;
      inHunk := true;
    } else if !inHunk || currentFile == "" {
      return Going(s);
    } else if StartsWith(line, "+") {
      var recorded := RecordLine(files, currentFile, nextLine);
      if !recorded.Going? {
        return LimitExceeded;
      }
      files := recorded.state;
      nextLine := (nextLine + 1) % LINE_NUMBERS;
    } else if StartsWith(line, "-") || StartsWith(line, "\\") {
      return Going(s);
    } else if StartsWith(line, " ") || line == "" {
      nextLine := (nextLine + 1) % LINE_NUMBERS;
    } else {
      inHunk := false;
    }
    return Going(State(files, currentFile, nextLine, inHunk));
  }

  /** The line at this offset, without what ends it, and where the next one starts. */
  method LineAt(bytes: string, offset: nat) returns (line: string, next: nat)
    requires offset <= |bytes|
    ensures offset < next == offset + IndexOf(bytes[offset..], '\n') + 1 <= |bytes| + 1
    ensures line == TrimTrailing(bytes[offset..next - 1])
  {
    var end := offset + IndexOf(bytes[offset..], '\n');
    line := Trim(bytes[offset..end]);
    next := end + 1;
  }

  method ReadNextLine(s: State, bytes: string, offset: nat) returns (result: Outcome<State>, next: nat)
    requires offset <= |bytes|
    ensures offset < next <= |bytes| + 1 && RunFrom(s, bytes, offset) == Resumed(result, bytes, next)
  {
    var line;
    line, next := LineAt(bytes, offset);
    result := ReadLine(s, line);
    ResumesAfter(s, bytes, offset, next - 1, line, result);
  }

  method ParseUnifiedDiff(bytes: string) returns (changed: Outcome<ChangedLines>)
    ensures changed == Parse(bytes)
  {
    if |bytes| > MAXIMUM_DIFF_BYTES {
      return LimitExceeded;
    }
    var state := START;
    var offset := 0;
    ghost var final := Run(START, Lines(bytes));
    RunFromStart(bytes);
    while offset <= |bytes|
      invariant 0 <= offset <= |bytes| + 1
      invariant RunFrom(state, bytes, offset) == final
    {
      var result, next := ReadNextLine(state, bytes, offset);
      match result
      case Going(after) => state, offset := after, next;
      case MalformedDiff => return MalformedDiff;
      case LimitExceeded => return LimitExceeded;
    }
    return Going(state.files);
  }

  // ---- edit scripts, and how they are printed

  datatype Edit = Keep(text: string) | Add(text: string) | Remove(text: string) | NoNewline(text: string)

  /** The old span and the new count are whatever the printer puts there; the reader skips both. */
  datatype Hunk = Hunk(oldSpan: string, newStart: nat, newCount: string, heading: string, edits: seq<Edit>)

  /** A file's new name, with or without a prefix and a timestamp, or none when the file is gone. */
  datatype NewName = Named(prefix: string, path: string, stamp: string) | Gone(stamp: string)

  /** A file whose changes are listed, or one only mentioned, as a pure rename or a binary file is. */
  datatype FileDiff =
    | Listed(headers: seq<string>, oldName: string, newName: NewName, hunks: seq<Hunk>)
    | Mentioned(headers: seq<string>)

  function EditLine(e: Edit): string {
    match e
    case Keep(text) => " " + text
    case Add(text) => "+" + text
    case Remove(text) => "-" + text
    case NoNewline(text) => "\\" + text
  }

  function EditLines(edits: seq<Edit>): seq<string> {
    if edits == [] then [] else [EditLine(edits[0])] + EditLines(edits[1..])
  }

  function HunkHeader(h: Hunk): string {
    "@@ -" + h.oldSpan + (" +" + (Decimal(h.newStart) + h.newCount + (" @@" + h.heading)))
  }

  function HunkLines(h: Hunk): seq<string> {
    [HunkHeader(h)] + EditLines(h.edits)
  }

  function HunksLines(hunks: seq<Hunk>): seq<string> {
    if hunks == [] then [] else HunkLines(hunks[0]) + HunksLines(hunks[1..])
  }

  function NewHeader(n: NewName): string {
    match n
    case Named(prefix, path, stamp) => "+++ " + (prefix + path + stamp)
    case Gone(stamp) => "+++ " + ("/dev/null" + stamp)
  }

  function FileLines(f: FileDiff): seq<string> {
    match f
    case Listed(headers, oldName, newName, hunks) =>
      headers + (["--- " + oldName, NewHeader(newName)] + HunksLines(hunks))
    case Mentioned(headers) => headers
  }

  function DiffLines(diff: seq<FileDiff>): seq<string> {
    if diff == [] then [] else FileLines(diff[0]) + DiffLines(diff[1..])
  }

  /** Every line with its end, which may be a carriage return and a newline. */
  function Text(lines: seq<string>, end: string): string {
    if lines == [] then "" else lines[0] + end + Text(lines[1..], end)
  }

  // ---- what the reader should find

  /** The new-file positions of the added lines, from this position on. */
  function Positions(edits: seq<Edit>, next: nat): seq<nat> {
    if edits == [] then []
    else
      match edits[0]
      case Keep(_) => Positions(edits[1..], next + 1)
      case Add(_) => [next] + Positions(edits[1..], next + 1)
      case Remove(_) => Positions(edits[1..], next)
      case NoNewline(_) => Positions(edits[1..], next)
  }

  function RecordAll(files: ChangedLines, path: string, lines: seq<nat>): Outcome<ChangedLines>
    decreases |lines|
  {
    if lines == [] then Going(files)
    else
      match Record(files, path, lines[0])
      case Going(more) => RecordAll(more, path, lines[1..])
      case MalformedDiff => MalformedDiff
      case LimitExceeded => LimitExceeded
  }

  function RecordHunks(files: ChangedLines, path: string, hunks: seq<Hunk>): Outcome<ChangedLines>
    decreases |hunks|
  {
    if hunks == [] || path == "" then Going(files)
    else
      match RecordAll(files, path, Positions(hunks[0].edits, hunks[0].newStart))
      case Going(more) => RecordHunks(more, path, hunks[1..])
      case MalformedDiff => MalformedDiff
      case LimitExceeded => LimitExceeded
  }

  /** The file a name stands for. */
  function PathOf(n: NewName): string {
    match n
    case Named(_, path, _) => NormalizeSeparators(path)
    case Gone(_) => ""
  }

  /** The file the reader takes a name for: a leading "a/" or "b/" goes, whoever put it there. */
  function PathRead(n: NewName): string {
    match n
    case Named(prefix, path, _) =>
      if prefix + path == "/dev/null" then "" else NormalizeSeparators(StripDiffPrefix(prefix + path))
    case Gone(_) => ""
  }

  // Whether a diff is taken to change the files its names stand for, or those they are read as.
  datatype Naming = Meant | Read

  function NameOf(naming: Naming, n: NewName): string {
    if naming == Meant then PathOf(n) else PathRead(n)
  }

  /** Every file's added lines, in the order they are listed, as far as the limits allow. */
  function Expected(naming: Naming, files: ChangedLines, diff: seq<FileDiff>): Outcome<ChangedLines>
    decreases |diff|
  {
    if diff == [] then Going(files)
    else if diff[0].Mentioned? then Expected(naming, files, diff[1..])
    else
      match RecordHunks(files, NameOf(naming, diff[0].newName), diff[0].hunks)
      case Going(more) => Expected(naming, more, diff[1..])
      case MalformedDiff => MalformedDiff
      case LimitExceeded => LimitExceeded
  }

  // ---- which scripts the reader reads

  predicate AddsNothing(edits: seq<Edit>) {
    forall k | 0 <= k < |edits| :: !edits[k].Add?
  }

  /**
    An added line that begins "++ " prints as a file header, and a removed line that begins "-- "
    as the end of the hunk, which matters when a line is added after it.
   */
  predicate ReadsBack(edits: seq<Edit>) {
    edits == [] ||
    match edits[0]
    case Add(text) => !StartsWith(text, "++ ") && ReadsBack(edits[1..])
    case Remove(text) => if StartsWith(text, "-- ") then AddsNothing(edits[1..]) else ReadsBack(edits[1..])
    case _ => ReadsBack(edits[1..])
  }

  lemma {:induction false} TrimKeepsFront(line: string, n: nat)
    requires n <= |line| && (n > 0 ==> line[n - 1] != '\r' && line[n - 1] != '\n')
    ensures |TrimTrailing(line)| >= n && TrimTrailing(line)[..n] == line[..n]
    decreases |line|
  {
    if line != "" && (line[|line| - 1] == '\r' || line[|line| - 1] == '\n') {
      TrimKeepsFront(line[..|line| - 1], n);
    }
  }

  lemma {:induction false} TrimIsPrefix(line: string)
    ensures TrimTrailing(line) == line[..|TrimTrailing(line)|]
  {
    if line != "" && (line[|line| - 1] == '\r' || line[|line| - 1] == '\n') {
      TrimIsPrefix(line[..|line| - 1]);
    }
  }

  /** Trimming never makes or breaks a marker. */
  lemma TrimKeepsMarker(line: string, marker: string)
    requires marker != "" && marker[|marker| - 1] != '\r' && marker[|marker| - 1] != '\n'
    ensures StartsWith(TrimTrailing(line), marker) <==> StartsWith(line, marker)
  {
    TrimIsPrefix(line);
    if StartsWith(line, marker) {
      assert line[|marker| - 1] == line[..|marker|][|marker| - 1];
      TrimKeepsFront(line, |marker|);
    }
  }

  /** An edit's line begins with a marker when its own mark does and its text begins with the rest. */
  lemma EditMarker(e: Edit, mark: char, rest: string)
    requires [mark] + rest != "" && mark != '\r' && mark != '\n'
    requires rest != "" ==> rest[|rest| - 1] != '\r' && rest[|rest| - 1] != '\n'
    ensures StartsWith(TrimTrailing(EditLine(e)), [mark] + rest) <==> EditLine(e)[0] == mark && StartsWith(e.text, rest)
  {
    var line, marker := EditLine(e), [mark] + rest;
    assert marker[|marker| - 1] == if rest == "" then mark else rest[|rest| - 1];
    TrimKeepsMarker(line, marker);
    assert line == [line[0]] + e.text;
    if line[0] == mark {
      MarkerOfRest(mark, e.text, rest);
    } else {
      FirstDiffers(line, marker);
    }
  }

  lemma FirstDiffers(line: string, marker: string)
    requires line != "" && marker != "" && line[0] != marker[0]
    ensures !StartsWith(line, marker)
  {
    if |line| >= |marker| {
      assert line[..|marker|][0] == line[0];
    }
  }

  lemma EditHeaders(e: Edit)
    ensures var line := TrimTrailing(EditLine(e));
            && (StartsWith(line, "+++ ") <==> e.Add? && StartsWith(e.text, "++ "))
            && (StartsWith(line, "--- ") <==> e.Remove? && StartsWith(e.text, "-- "))
            && !StartsWith(line, "diff ") && !StartsWith(line, "index ") && !StartsWith(line, "@@")
  {
    EditMarker(e, '+', "++ ");
    EditMarker(e, '-', "-- ");
    EditMarker(e, 'd', "iff ");
    EditMarker(e, 'i', "ndex ");
    EditMarker(e, '@', "@");
    assert ['+'] + "++ " == "+++ " && ['-'] + "-- " == "--- ";
    assert ['d'] + "iff " == "diff " && ['i'] + "ndex " == "index " && ['@'] + "@" == "@@";
  }

  lemma EditMarks(e: Edit)
    ensures var line := TrimTrailing(EditLine(e));
            && line != ""
            && (StartsWith(line, "+") <==> e.Add?) && (StartsWith(line, "-") <==> e.Remove?)
            && (StartsWith(line, "\\") <==> e.NoNewline?) && (StartsWith(line, " ") <==> e.Keep?)
  {
    EditMarker(e, '+', "");
    EditMarker(e, '-', "");
    EditMarker(e, '\\', "");
    EditMarker(e, ' ', "");
    assert ['+'] + "" == "+" && ['-'] + "" == "-" && ['\\'] + "" == "\\" && [' '] + "" == " ";
    TrimKeepsFront(EditLine(e), 1);
  }

  /** What the reader makes of an edit's line. */
  function EditStep(s: State, e: Edit): Outcome<State> {
    if e.Add? && StartsWith(e.text, "++ ") then
      Going(State(s.files, NewFile(TrimTrailing(EditLine(e))), s.nextLine, false))
    else if e.Remove? && StartsWith(e.text, "-- ") then Going(OutOfHunk(s))
    else if !s.inHunk || s.currentFile == "" then Going(s)
    else
      match e
      case Keep(_) => Going(Advanced(s))
      case Add(_) =>
        (match Record(s.files, s.currentFile, s.nextLine)
         case Going(files) => Going(Advanced(State(files, s.currentFile, s.nextLine, true)))
         case MalformedDiff => MalformedDiff
         case LimitExceeded => LimitExceeded)
      case Remove(_) => Going(s)
      case NoNewline(_) => Going(s)
  }

  lemma StepOfEdit(s: State, e: Edit)
    ensures Step(s, TrimTrailing(EditLine(e))) == EditStep(s, e)
  {
    EditHeaders(e);
    EditMarks(e);
  }

  /** The reader, one edit on. */
  function AfterEdit(result: Outcome<State>, edits: seq<Edit>): Outcome<State> {
    match result
    case Going(s) => Run(s, EditLines(edits))
    case MalformedDiff => MalformedDiff
    case LimitExceeded => LimitExceeded
  }

  lemma RunEdit(s: State, edits: seq<Edit>)
    requires edits != []
    ensures Run(s, EditLines(edits)) == AfterEdit(EditStep(s, edits[0]), edits[1..])
  {
    StepOfEdit(s, edits[0]);
    var lines := EditLines(edits);
    assert lines[0] == EditLine(edits[0]) && lines[1..] == EditLines(edits[1..]);
  }

  lemma MarkerOfRest(c: char, text: string, marker: string)
    ensures StartsWith([c] + text, [c] + marker) <==> StartsWith(text, marker)
  {
    var line := [c] + text;
    if |text| >= |marker| {
      assert line[..|marker| + 1] == [c] + text[..|marker|];
      assert ([c] + text[..|marker|])[1..] == text[..|marker|] && ([c] + marker)[1..] == marker;
    }
  }

  lemma {:induction false} RunConcat(s: State, a: seq<string>, b: seq<string>)
    ensures Run(s, a + b) == match Run(s, a)
                             case Going(next) => Run(next, b)
                             case MalformedDiff => MalformedDiff
                             case LimitExceeded => LimitExceeded
    decreases |a|
  {
    if a == [] {
      assert a + b == b;
    } else {
      assert (a + b)[1..] == a[1..] + b;
      var first := Step(s, TrimTrailing(a[0]));
      if first.Going? {
        RunConcat(first.state, a[1..], b);
      }
    }
  }

  /** Outside a hunk, or with no file to record them in, a hunk's lines change no record. */
  lemma {:induction false} SkippedEdits(s: State, edits: seq<Edit>)
    requires !s.inHunk
    ensures Changes(Run(s, EditLines(edits))) == Going(s.files)
    decreases |edits|
  {
    if edits != [] {
      RunEdit(s, edits);
      var next := EditStep(s, edits[0]);
      assert next.Going? && next.state.files == s.files && !next.state.inHunk;
      SkippedEdits(next.state, edits[1..]);
    }
  }

  /** What has been recorded, and the file the reader is in. */
  datatype Reading = Reading(files: ChangedLines, currentFile: string)

  function Seen(outcome: Outcome<State>): Outcome<Reading> {
    match outcome
    case Going(s) => Going(Reading(s.files, s.currentFile))
    case MalformedDiff => MalformedDiff
    case LimitExceeded => LimitExceeded
  }

  /** These records, and still in this file. */
  function In(path: string, files: Outcome<ChangedLines>): Outcome<Reading> {
    match files
    case Going(f) => Going(Reading(f, path))
    case MalformedDiff => MalformedDiff
    case LimitExceeded => LimitExceeded
  }

  lemma {:induction false} SkippedQuietEdits(s: State, edits: seq<Edit>)
    requires !s.inHunk || s.currentFile == ""
    requires forall k | 0 <= k < |edits| :: edits[k].Add? ==> !StartsWith(edits[k].text, "++ ")
    ensures Seen(Run(s, EditLines(edits))) == Going(Reading(s.files, s.currentFile))
    decreases |edits|
  {
    if edits != [] {
      RunEdit(s, edits);
      var next := EditStep(s, edits[0]);
      assert next.Going? && (next.state == s || next.state == OutOfHunk(s));
      SkippedQuietEdits(next.state, edits[1..]);
    }
  }

  lemma {:induction false} NothingAdded(edits: seq<Edit>, next: nat)
    requires AddsNothing(edits)
    ensures Positions(edits, next) == []
    decreases |edits|
  {
    if edits != [] {
      assert !edits[0].Add?;
      NothingAdded(edits[1..], next);
      NothingAdded(edits[1..], next + 1);
    }
  }

  /** The added lines' positions, recorded. */
  function RecordEdits(s: State, edits: seq<Edit>): Outcome<ChangedLines> {
    RecordAll(s.files, s.currentFile, Positions(edits, s.nextLine))
  }

  function RunEdits(s: State, edits: seq<Edit>): Outcome<State> {
    Run(s, EditLines(edits))
  }

  /** In a hunk that reads back, exactly the added lines' positions are recorded. */
  lemma {:induction false} EditsReadBack(s: State, edits: seq<Edit>)
    requires s.inHunk && s.currentFile != "" && ReadsBack(edits)
    requires s.nextLine + |edits| < LINE_NUMBERS
    ensures Seen(RunEdits(s, edits)) == In(s.currentFile, RecordEdits(s, edits))
    decreases |edits|
  {
    if edits == [] {
      assert RunEdits(s, edits) == Going(s) && RecordEdits(s, edits) == Going(s.files);
    } else {
      RunEdit(s, edits);
      var rest, next := edits[1..], EditStep(s, edits[0]);
      if edits[0].Remove? && StartsWith(edits[0].text, "-- ") {
        NothingAdded(edits[1..], s.nextLine);
        assert RecordEdits(s, edits) == Going(s.files);
        SkippedQuietEdits(OutOfHunk(s), rest);
      } else {
        RecordNext(s, edits, next);
        if next.Going? {
          EditsReadBack(next.state, rest);
        }
      }
    }
  }

  /** The state after an edit that is read as it is meant. */
  ghost predicate IsNext(s: State, e: Edit, next: Outcome<State>) {
    && next == EditStep(s, e)
    && !(e.Remove? && StartsWith(e.text, "-- ")) && !(e.Add? && StartsWith(e.text, "++ "))
  }

  function RecordNextOf(next: Outcome<State>, rest: seq<Edit>): Outcome<ChangedLines> {
    match next
    case Going(t) => RecordEdits(t, rest)
    case MalformedDiff => MalformedDiff
    case LimitExceeded => LimitExceeded
  }

  lemma RecordNext(s: State, edits: seq<Edit>, next: Outcome<State>)
    requires edits != [] && s.inHunk && s.currentFile != "" && IsNext(s, edits[0], next)
    requires s.nextLine + 1 < LINE_NUMBERS
    ensures next.Going? ==> next.state.inHunk && next.state.currentFile == s.currentFile
    ensures next.Going? ==> next.state.nextLine <= s.nextLine + 1
    ensures RecordEdits(s, edits) == RecordNextOf(next, edits[1..])
  {
    if next.Going? {
      NextState(s, edits[0], next.state);
    }
    if edits[0].Add? {
      RecordAddition(s, edits, next);
    } else {
      RecordNothing(s, edits, next.state);
    }
  }

  lemma RecordNothing(s: State, edits: seq<Edit>, t: State)
    requires edits != [] && !edits[0].Add? && t.files == s.files && t.currentFile == s.currentFile
    requires t.nextLine == s.nextLine + if edits[0].Keep? then 1 else 0
    ensures RecordEdits(s, edits) == RecordEdits(t, edits[1..])
  {
    NoPositionFrom(edits, s.nextLine, t.nextLine);
  }

  lemma NoPositionFrom(edits: seq<Edit>, next: nat, later: nat)
    requires edits != [] && !edits[0].Add? && later == next + if edits[0].Keep? then 1 else 0
    ensures Positions(edits, next) == Positions(edits[1..], later)
  {}

  /** Where an edit that is read as it is meant leaves the reader. */
  lemma NextState(s: State, e: Edit, t: State)
    requires s.inHunk && s.currentFile != "" && IsNext(s, e, Going(t)) && s.nextLine + 1 < LINE_NUMBERS
    ensures t.inHunk && t.currentFile == s.currentFile && (!e.Add? ==> t.files == s.files)
    ensures t.nextLine == s.nextLine + if e.Add? || e.Keep? then 1 else 0
  {}

  lemma RecordAddition(s: State, edits: seq<Edit>, next: Outcome<State>)
    requires edits != [] && edits[0].Add? && s.inHunk && s.currentFile != "" && IsNext(s, edits[0], next)
    requires s.nextLine + 1 < LINE_NUMBERS
    ensures RecordEdits(s, edits) == RecordNextOf(next, edits[1..])
  {
    var positions := Positions(edits, s.nextLine);
    PositionsFrom(edits, s.nextLine, positions);
  }

  lemma PositionsFrom(edits: seq<Edit>, next: nat, positions: seq<nat>)
    requires edits != [] && edits[0].Add? && positions == Positions(edits, next)
    ensures positions != [] && positions[0] == next && positions[1..] == Positions(edits[1..], next + 1)
  {}

  // ---- and only then

  function LinesOf(files: ChangedLines, path: string): set<nat> {
    if path in files then files[path] else {}
  }

  ghost predicate AllBelow(lines: set<nat>, bound: nat) {
    forall n | n in lines :: n < bound
  }

  lemma {:induction false} PositionsAreFurtherOn(edits: seq<Edit>, next: nat)
    ensures forall p | p in Positions(edits, next) :: p >= next
    ensures !AddsNothing(edits) ==> Positions(edits, next) != []
    decreases |edits|
  {
    if edits != [] {
      var rest := edits[1..];
      PositionsAreFurtherOn(rest, next);
      PositionsAreFurtherOn(rest, next + 1);
      assert edits == [edits[0]] + rest;
      if AddsNothing(rest) && !edits[0].Add? {
        assert forall k | 0 <= k < |edits| :: !edits[k].Add?;
      }
    }
  }

  /** What a hunk's lines leave recorded. */
  function Recorded(s: State, edits: seq<Edit>): Outcome<ChangedLines> {
    Changes(RunEdits(s, edits))
  }

  lemma RecordedNext(s: State, edits: seq<Edit>, next: Outcome<State>)
    requires edits != [] && next == EditStep(s, edits[0])
    ensures Recorded(s, edits) == match next
                                  case Going(t) => Recorded(t, edits[1..])
                                  case MalformedDiff => MalformedDiff
                                  case LimitExceeded => LimitExceeded
  {
    RunEdit(s, edits);
  }

  function LineSet(files: Outcome<ChangedLines>, path: string): set<nat> {
    if files.Going? then LinesOf(files.state, path) else {}
  }

  function ToSet(lines: seq<nat>): set<nat> {
    set n | n in lines
  }

  function PositionSet(edits: seq<Edit>, next: nat): set<nat> {
    ToSet(Positions(edits, next))
  }

  /** The hunk ends at this edit: nothing after it is recorded. */
  lemma EndOfReading(s: State, edits: seq<Edit>)
    requires edits != [] && EditStep(s, edits[0]).Going?
    requires var t := EditStep(s, edits[0]).state; !t.inHunk && t.files == s.files
    ensures Recorded(s, edits) == Going(s.files)
  {
    var t := EditStep(s, edits[0]).state;
    RecordedNext(s, edits, Going(t));
    SkippedEdits(t, edits[1..]);
  }

  lemma LaterPositions(edits: seq<Edit>, next: nat, p: nat, later: nat)
    requires edits != [] && later == next + if edits[0].Add? || edits[0].Keep? then 1 else 0
    requires p in PositionSet(edits[1..], later)
    ensures p in PositionSet(edits, next)
  {}

  /** The added line that ends the hunk, or the first one after the removed line that does, is lost. */
  lemma HunkEndsEarly(s: State, edits: seq<Edit>) returns (p: nat)
    requires s.inHunk && s.currentFile != "" && edits != []
    requires AllBelow(LinesOf(s.files, s.currentFile), s.nextLine)
    requires match edits[0]
             case Add(text) => StartsWith(text, "++ ")
             case Remove(text) => StartsWith(text, "-- ") && !AddsNothing(edits[1..])
             case _ => false
    ensures p in PositionSet(edits, s.nextLine) && p !in LineSet(Recorded(s, edits), s.currentFile)
  {
    EndOfReading(s, edits);
    if edits[0].Add? {
      p := s.nextLine;
    } else {
      var later := Positions(edits[1..], s.nextLine);
      PositionsAreFurtherOn(edits[1..], s.nextLine);
      p := later[0];
    }
  }

  /** A hunk that does not read back loses a line. */
  lemma {:induction false} HunkLosesALine(s: State, edits: seq<Edit>) returns (p: nat)
    requires s.inHunk && s.currentFile != "" && !ReadsBack(edits)
    requires s.nextLine + |edits| < LINE_NUMBERS
    requires AllBelow(LinesOf(s.files, s.currentFile), s.nextLine)
    ensures p in PositionSet(edits, s.nextLine) && p !in LineSet(Recorded(s, edits), s.currentFile)
    decreases |edits|
  {
    var e, next := edits[0], EditStep(s, edits[0]);
    if (e.Add? && StartsWith(e.text, "++ ")) || (e.Remove? && StartsWith(e.text, "-- ")) {
      p := HunkEndsEarly(s, edits);
    } else {
      RecordedNext(s, edits, next);
      if next.Going? {
        NextIsBelow(s, e, next.state);
        p := HunkLosesALine(next.state, edits[1..]);
        LaterPositions(edits, s.nextLine, p, next.state.nextLine);
      } else {
        p := s.nextLine;
      }
    }
  }

  lemma NextIsBelow(s: State, e: Edit, t: State)
    requires s.inHunk && s.currentFile != "" && IsNext(s, e, Going(t)) && s.nextLine + 1 < LINE_NUMBERS
    requires AllBelow(LinesOf(s.files, s.currentFile), s.nextLine)
    ensures t.inHunk && t.currentFile == s.currentFile
    ensures t.nextLine == s.nextLine + (if e.Add? || e.Keep? then 1 else 0)
    ensures AllBelow(LinesOf(t.files, t.currentFile), t.nextLine)
  {}

  lemma RecordedLine(files: ChangedLines, path: string, line: nat, other: string)
    requires Record(files, path, line).Going?
    ensures var more := Record(files, path, line).state;
            && LinesOf(more, other) == LinesOf(files, other) + (if other == path then {line} else {})
            && (other in more <==> other in files || other == path)
  {}

  lemma ToSetOfFirst(lines: seq<nat>)
    requires lines != []
    ensures ToSet(lines) == {lines[0]} + ToSet(lines[1..])
  {
    assert lines == [lines[0]] + lines[1..];
  }

  /** Recording adds these lines to this file, and changes no other. */
  lemma {:induction false} RecordedLines(files: ChangedLines, path: string, lines: seq<nat>, other: string)
    requires RecordAll(files, path, lines).Going?
    ensures var more := RecordAll(files, path, lines).state;
            && LinesOf(more, other) == LinesOf(files, other) + (if other == path then ToSet(lines) else {})
            && (other in more <==> other in files || (other == path && lines != []))
    decreases |lines|
  {
    if lines != [] {
      RecordedLine(files, path, lines[0], other);
      RecordedLines(Record(files, path, lines[0]).state, path, lines[1..], other);
      ToSetOfFirst(lines);
    }
  }

  /**
    Within the limits, a hunk's changed lines are read exactly when none of its added lines begins
    "++ " and no removed line that begins "-- " comes before an added one.
   */
  lemma HunkReadsExactly(s: State, edits: seq<Edit>)
    requires s.inHunk && s.currentFile != "" && s.nextLine + |edits| < LINE_NUMBERS
    requires AllBelow(LinesOf(s.files, s.currentFile), s.nextLine)
    requires RecordEdits(s, edits).Going?
    ensures Recorded(s, edits) == RecordEdits(s, edits) <==> ReadsBack(edits)
  {
    if ReadsBack(edits) {
      EditsReadBack(s, edits);
    } else {
      var p := HunkLosesALine(s, edits);
      RecordedLines(s.files, s.currentFile, Positions(edits, s.nextLine), s.currentFile);
      assert p in PositionSet(edits, s.nextLine);
    }
  }

  // ---- headers

  /** Digits and commas, as the spans in a hunk header are. */
  predicate IsSpan(s: string) {
    forall k | 0 <= k < |s| :: IsDigit(s[k]) || s[k] == ','
  }

  /** What a printer can put in a hunk, whatever its lines say. */
  predicate IsPrintedHunk(h: Hunk) {
    && IsSpan(h.oldSpan) && IsSpan(h.newCount) && (h.newCount != "" ==> h.newCount[0] == ',')
    && h.newStart + |h.edits| < LINE_NUMBERS
  }

  predicate IsHunk(h: Hunk) {
    IsPrintedHunk(h) && ReadsBack(h.edits)
  }

  lemma {:induction false} IndexOfAfter(front: string, c: char, back: string)
    requires c !in front
    ensures IndexOf(front + [c] + back, c) == |front| && IndexOf(front, c) == |front|
  {
    if front != "" {
      assert (front + [c] + back)[1..] == front[1..] + [c] + back;
      IndexOfAfter(front[1..], c, back);
    }
  }

  lemma PairFurtherOn(c: char, rest: string, n: nat)
    requires |rest| >= 2 && (c != ' ' || rest[0] != '+') && IndexOfPair(rest, ' ', '+') == n
    ensures IndexOfPair([c] + rest, ' ', '+') == n + 1
  {
    var s := [c] + rest;
    assert s[0] == c && s[1] == rest[0] && s[1..] == rest;
  }

  lemma {:induction false} PairAfterSpan(span: string, rest: string)
    requires IsSpan(span) && |rest| >= 2 && rest[0] == ' ' && rest[1] == '+'
    ensures IndexOfPair(span + rest, ' ', '+') == |span|
  {
    if span == "" {
      assert span + rest == rest;
    } else {
      assert IsDigit(span[0]) || span[0] == ',';
      assert span + rest == [span[0]] + (span[1..] + rest);
      PairAfterSpan(span[1..], rest);
      PairFurtherOn(span[0], span[1..] + rest, |span| - 1);
    }
  }

  lemma PairAfterOldSpan(span: string, rest: string, line: string)
    requires IsSpan(span) && |rest| >= 2 && rest[0] == ' ' && rest[1] == '+'
    requires line == "@@ -" + span + rest
    ensures IndexOfPair(line, ' ', '+') == 4 + |span|
  {
    var after := span + rest;
    PairAfterSpan(span, rest);
    PairFurtherOn('-', after, |span|);
    PairFurtherOn(' ', ['-'] + after, |span| + 1);
    PairFurtherOn('@', [' '] + (['-'] + after), |span| + 2);
    PairFurtherOn('@', ['@'] + ([' '] + (['-'] + after)), |span| + 3);
    MarkerApart(span, rest);
  }

  lemma MarkerApart(span: string, rest: string)
    ensures "@@ -" + span + rest == ['@'] + (['@'] + ([' '] + (['-'] + (span + rest))))
  {}

  lemma SpanHas(s: string, c: char)
    requires IsSpan(s) && c != ',' && !IsDigit(c)
    ensures c !in s
  {
    forall k | 0 <= k < |s| ensures s[k] != c {
      assert IsDigit(s[k]) || s[k] == ',';
    }
  }

  lemma DigitsHave(s: string, c: char)
    requires AllDigits(s) && !IsDigit(c)
    ensures c !in s
  {
    forall k | 0 <= k < |s| ensures s[k] != c {
      assert IsDigit(s[k]);
    }
  }

  lemma NumberThenCount(digits: string, count: string)
    requires AllDigits(digits) && IsSpan(count) && (count != "" ==> count[0] == ',')
    ensures ' ' !in digits + count
    ensures (digits + count)[..IndexOf(digits + count, ',')] == digits
  {
    DigitsHave(digits, ' ');
    DigitsHave(digits, ',');
    SpanHas(count, ' ');
    if count == "" {
      IndexOfAfter(digits, ',', "");
      assert digits + count == digits;
    } else {
      IndexOfAfter(digits, ',', count[1..]);
      assert digits + count == digits + [','] + count[1..];
    }
  }

  /** Everything of a hunk header but the section heading. */
  function HeaderCore(h: Hunk): string {
    "@@ -" + h.oldSpan + (" +" + (Decimal(h.newStart) + h.newCount + " @@"))
  }

  lemma NumberIsRead(h: Hunk, rest: string, tail: string)
    requires IsPrintedHunk(h) && rest == Decimal(h.newStart) + h.newCount + [' '] + tail
    ensures var end := IndexOf(rest, ' ');
            && end < |rest| && ParseUnsigned(rest[..end][..IndexOf(rest[..end], ',')]) == Some(h.newStart)
  {
    var span := Decimal(h.newStart) + h.newCount;
    NumberThenCount(Decimal(h.newStart), h.newCount);
    IndexOfAfter(span, ' ', tail);
    assert rest[..|span|] == span;
    ValueOfDecimal(h.newStart);
  }

  lemma HunkStartIsRead(h: Hunk, tail: string)
    requires IsPrintedHunk(h)
    ensures ParseHunkStart(HeaderCore(h) + tail) == Some(h.newStart)
    ensures StartsWith(HeaderCore(h) + tail, "@@ -")
  {
    var rest := Decimal(h.newStart) + h.newCount + [' '] + ("@@" + tail);
    var line := "@@ -" + h.oldSpan + (" +" + rest);
    HeaderPieces(h.oldSpan, Decimal(h.newStart) + h.newCount, rest, tail);
    PairAfterOldSpan(h.oldSpan, " +" + rest, line);
    NumberIsRead(h, rest, "@@" + tail);
  }

  lemma HeaderPieces(oldSpan: string, span: string, rest: string, tail: string)
    requires rest == span + [' '] + ("@@" + tail)
    ensures "@@ -" + oldSpan + (" +" + (span + " @@")) + tail == "@@ -" + oldSpan + (" +" + rest)
    ensures ("@@ -" + oldSpan + (" +" + rest))[4 + |oldSpan| + 2..] == rest
    ensures ("@@ -" + oldSpan + (" +" + rest))[..4] == "@@ -"
  {}

  lemma CoreThenHeading(h: Hunk, core: string, line: string)
    requires core == HeaderCore(h) && line == HunkHeader(h)
    ensures line == core + h.heading && |core| > 0 && |core| <= |line|
    ensures line[..|core|] == core && line[|core| - 1] == '@'
  {
    assert core[|core| - 1] == '@';
    assert line == core + h.heading;
  }

  lemma HunkHeaderStep(s: State, h: Hunk)
    requires IsPrintedHunk(h)
    ensures Step(s, TrimTrailing(HunkHeader(h))) == Going(State(s.files, s.currentFile, h.newStart, true))
  {
    var core, line := HeaderCore(h), HunkHeader(h);
    CoreThenHeading(h, core, line);
    TrimKeepsFront(line, |core|);
    var trimmed := TrimTrailing(line);
    HunkStartIsRead(h, trimmed[|core|..]);
    assert trimmed == core + trimmed[|core|..];
    OnlyAHunkHeader(trimmed);
  }

  lemma OnlyAHunkHeader(line: string)
    requires StartsWith(line, "@@ -")
    ensures StartsWith(line, "@@") && !StartsWith(line, "+++ ") && !StartsWith(line, "--- ")
    ensures !StartsWith(line, "diff ") && !StartsWith(line, "index ")
  {
    assert line[..4][0] == line[0] && line[..4][1] == line[1];
    FirstDiffers(line, "+++ ");
    FirstDiffers(line, "--- ");
    FirstDiffers(line, "diff ");
    FirstDiffers(line, "index ");
    assert line[..2] == "@@";
  }

  predicate EndsHunk(header: string) {
    StartsWith(header, "diff ") || StartsWith(header, "index ")
  }

  /** Lines before a file's names: the first one ends the hunk before it, and none is taken for a name or a hunk. */
  predicate AreHeaders(headers: seq<string>) {
    && (headers != [] ==> EndsHunk(headers[0]))
    && forall k | 0 <= k < |headers| :: !StartsWith(headers[k], "+++ ") && !StartsWith(headers[k], "@@")
  }

  lemma HeaderStep(s: State, header: string)
    requires !StartsWith(header, "+++ ") && !StartsWith(header, "@@")
    requires EndsHunk(header) || StartsWith(header, "--- ") || !s.inHunk
    ensures Step(s, TrimTrailing(header)) == Going(OutOfHunk(s))
  {
    TrimKeepsMarker(header, "+++ ");
    TrimKeepsMarker(header, "--- ");
    TrimKeepsMarker(header, "diff ");
    TrimKeepsMarker(header, "index ");
    TrimKeepsMarker(header, "@@");
  }

  lemma {:induction false} RunHeaders(s: State, headers: seq<string>)
    requires forall k | 0 <= k < |headers| :: !StartsWith(headers[k], "+++ ") && !StartsWith(headers[k], "@@")
    requires headers != [] ==> EndsHunk(headers[0]) || !s.inHunk
    ensures Run(s, headers) == Going(if headers == [] then s else OutOfHunk(s))
    decreases |headers|
  {
    if headers != [] {
      HeaderStep(s, headers[0]);
      RunHeaders(OutOfHunk(s), headers[1..]);
    }
  }

  // ---- file names

  predicate IsStamp(stamp: string) {
    stamp == "" || stamp[0] == '\t'
  }

  predicate HasNoControl(text: string) {
    '\t' !in text && '\r' !in text && '\n' !in text
  }

  /** Any prefix, or none, before a path that is not empty; neither holds what would end the name. */
  predicate IsNewName(n: NewName) {
    match n
    case Gone(stamp) => IsStamp(stamp)
    case Named(prefix, path, stamp) => IsStamp(stamp) && HasNoControl(prefix) && path != "" && HasNoControl(path)
  }

  /** One of the two prefixes the reader takes off, or none before a path that does not itself look like one. */
  predicate KeepsName(n: NewName) {
    match n
    case Gone(_) => true
    case Named(prefix, path, _) =>
      || prefix == "a/" || prefix == "b/"
      || (prefix == "" && !StartsWith(path, "a/") && !StartsWith(path, "b/") && path != "/dev/null")
  }

  lemma StrippedLength(name: string)
    ensures |StripDiffPrefix(name)| == if StartsWith(name, "b/") || StartsWith(name, "a/") then |name| - 2 else |name|
  {}

  lemma PrefixOfTwo(prefix: string, path: string)
    requires |prefix| == 2
    ensures (prefix + path)[..2] == prefix && (prefix + path)[2..] == path
  {}

  /** Every printed name is read as the file it stands for exactly when `KeepsName` says so. */
  lemma NameIsKeptExactly(n: NewName)
    requires IsNewName(n)
    ensures PathRead(n) == PathOf(n) <==> KeepsName(n)
  {
    if n.Named? {
      var name := n.prefix + n.path;
      StrippedLength(name);
      if |n.prefix| == 2 {
        PrefixOfTwo(n.prefix, n.path);
        FirstDiffers("a/", "/dev/null");
      } else if n.prefix == "" {
        assert name == n.path;
      }
    }
  }

  /** Without a prefix, every file in a directory `a` or `b` is taken for one outside it, as a/x.cpp for x.cpp. */
  lemma UnprefixedDirectoryIsLost(directory: string, file: string)
    requires (directory == "a/" || directory == "b/") && file != "" && HasNoControl(file)
    ensures var n := Named("", directory + file, "");
      IsNewName(n) && PathRead(n) == NormalizeSeparators(file) && !KeepsName(n)
  {
    PrefixOfTwo(directory, file);
    NoPrefix(directory + file);
    DirectoryIsStripped(directory, file, directory + file);
  }

  lemma DirectoryIsStripped(directory: string, file: string, path: string)
    requires (directory == "a/" || directory == "b/") && path == directory + file
    ensures StripDiffPrefix(path) == file && path != "" && path[0] != '/' && StartsWith(path, directory)
    ensures HasNoControl(file) ==> HasNoControl(path)
  {
    PrefixOfTwo(directory, file);
  }

  lemma NoPrefix(path: string)
    ensures "" + path == path
  {}

  lemma UnprefixedExample()
    ensures PathRead(Named("", "a/" + "x.cpp", "")) == "x.cpp"
  {
    UnprefixedDirectoryIsLost("a/", "x.cpp");
    NothingToNormalize("x.cpp");
  }

  lemma {:induction false} NothingToNormalize(path: string)
    requires '\\' !in path
    ensures NormalizeSeparators(path) == path
  {
    if path != "" {
      NothingToNormalize(path[1..]);
    }
  }

  /** A name line, trimmed, is its name and then at most a tab and more. */
  lemma NameIsRead(name: string, stamp: string)
    requires IsStamp(stamp) && '\t' !in name && '\r' !in name && '\n' !in name
    ensures var line := TrimTrailing("+++ " + (name + stamp));
            |line| >= 4 && StartsWith(line, "+++ ") && UntilTab(line[4..]) == name
  {
    var tab := if stamp == "" then "" else "\t";
    var front := "+++ " + (name + tab);
    NameAndTab(name, stamp, tab);
    var line := "+++ " + (name + stamp);
    TrimKeepsFront(line, |front|);
    var trimmed := TrimTrailing(line);
    if stamp == "" {
      assert name + stamp == name && name + tab == name;
      assert trimmed == line && trimmed[4..] == name;
      IndexOfAfter(name, '\t', "");
    } else {
      TabFollows(name, trimmed);
    }
  }

  lemma NameAndTab(name: string, stamp: string, tab: string)
    requires IsStamp(stamp) && '\r' !in name && '\n' !in name && tab == if stamp == "" then "" else "\t"
    ensures var line, front := "+++ " + (name + stamp), "+++ " + (name + tab);
            |front| <= |line| && line[..|front|] == front && front[|front| - 1] != '\r' && front[|front| - 1] != '\n'
  {
    var front := "+++ " + (name + tab);
    assert front[|front| - 1] == if tab != "" then '\t' else if name == "" then ' ' else name[|name| - 1];
  }

  lemma TabFollows(name: string, trimmed: string)
    requires '\t' !in name && |trimmed| >= 5 + |name| && trimmed[..5 + |name|] == "+++ " + (name + "\t")
    ensures StartsWith(trimmed, "+++ ") && UntilTab(trimmed[4..]) == name
  {
    var after := trimmed[5 + |name|..];
    assert trimmed == "+++ " + (name + "\t") + after;
    assert trimmed[4..] == name + ['\t'] + after;
    IndexOfAfter(name, '\t', after);
  }

  lemma NewHeaderStep(s: State, n: NewName)
    requires IsNewName(n)
    ensures Step(s, TrimTrailing(NewHeader(n))) == Going(State(s.files, PathRead(n), s.nextLine, false))
  {
    match n
    case Gone(stamp) => NameIsRead("/dev/null", stamp);
    case Named(prefix, path, stamp) =>
      assert prefix + path + stamp == (prefix + path) + stamp;
      NameIsRead(prefix + path, stamp);
  }

  // ---- whole files

  lemma {:induction false} ReadsBackMeansNoHeader(edits: seq<Edit>)
    requires ReadsBack(edits)
    ensures forall k | 0 <= k < |edits| :: edits[k].Add? ==> !StartsWith(edits[k].text, "++ ")
    decreases |edits|
  {
    if edits != [] {
      var rest := edits[1..];
      assert forall k | 0 < k < |edits| :: edits[k] == rest[k - 1];
      if !(edits[0].Remove? && StartsWith(edits[0].text, "-- ")) {
        ReadsBackMeansNoHeader(rest);
      }
    }
  }

  lemma HunkReadsBack(s: State, h: Hunk)
    requires IsHunk(h)
    ensures Seen(Run(s, HunkLines(h))) ==
            if s.currentFile == "" then Going(Reading(s.files, ""))
            else In(s.currentFile, RecordAll(s.files, s.currentFile, Positions(h.edits, h.newStart)))
  {
    var t := State(s.files, s.currentFile, h.newStart, true);
    HunkHeaderStep(s, h);
    assert HunkLines(h)[0] == HunkHeader(h) && HunkLines(h)[1..] == EditLines(h.edits);
    assert Run(s, HunkLines(h)) == RunEdits(t, h.edits);
    if s.currentFile == "" {
      ReadsBackMeansNoHeader(h.edits);
      SkippedQuietEdits(t, h.edits);
    } else {
      EditsReadBack(t, h.edits);
    }
  }

  lemma {:induction false} HunksReadBack(s: State, hunks: seq<Hunk>)
    requires forall k | 0 <= k < |hunks| :: IsHunk(hunks[k])
    ensures Seen(Run(s, HunksLines(hunks))) == In(s.currentFile, RecordHunks(s.files, s.currentFile, hunks))
    decreases |hunks|
  {
    if hunks != [] {
      RunConcat(s, HunkLines(hunks[0]), HunksLines(hunks[1..]));
      HunkReadsBack(s, hunks[0]);
      var first := Run(s, HunkLines(hunks[0]));
      if first.Going? {
        HunksReadBack(first.state, hunks[1..]);
      }
    }
  }

  predicate IsFile(f: FileDiff) {
    match f
    case Mentioned(headers) => headers != [] && AreHeaders(headers)
    case Listed(headers, _, newName, hunks) =>
      AreHeaders(headers) && IsNewName(newName) && forall k | 0 <= k < |hunks| :: IsHunk(hunks[k])
  }

  lemma NamesAreRead(s: State, f: FileDiff, rest: seq<string>)
    requires f.Listed? && AreHeaders(f.headers) && IsNewName(f.newName)
    ensures Run(s, f.headers + (["--- " + f.oldName, NewHeader(f.newName)] + rest))
            == Run(State(s.files, PathRead(f.newName), s.nextLine, false), rest)
  {
    var names := ["--- " + f.oldName, NewHeader(f.newName)] + rest;
    RunConcat(s, f.headers, names);
    RunHeaders(s, f.headers);
    RunNames(if f.headers == [] then s else OutOfHunk(s), f.oldName, f.newName, rest, names);
  }

  lemma RunNames(s: State, oldName: string, newName: NewName, rest: seq<string>, names: seq<string>)
    requires IsNewName(newName) && names == ["--- " + oldName, NewHeader(newName)] + rest
    ensures Run(s, names) == Run(State(s.files, PathRead(newName), s.nextLine, false), rest)
  {
    var former := "--- " + oldName;
    assert former[..4] == "--- ";
    FirstDiffers(former, "+++ ");
    FirstDiffers(former, "@@");
    HeaderStep(s, former);
    NewHeaderStep(OutOfHunk(s), newName);
    assert names[0] == former && names[1..] == [NewHeader(newName)] + rest;
    assert names[1..][0] == NewHeader(newName) && names[1..][1..] == rest;
  }

  lemma FileReadsBack(s: State, f: FileDiff)
    requires IsFile(f)
    ensures Changes(Run(s, FileLines(f))) == if f.Mentioned? then Going(s.files)
                                             else RecordHunks(s.files, PathRead(f.newName), f.hunks)
  {
    if f.Mentioned? {
      RunHeaders(s, f.headers);
    } else {
      NamesAreRead(s, f, HunksLines(f.hunks));
      HunksReadBack(State(s.files, PathRead(f.newName), s.nextLine, false), f.hunks);
    }
  }

  lemma {:induction false} DiffReadsBack(s: State, diff: seq<FileDiff>)
    requires forall k | 0 <= k < |diff| :: IsFile(diff[k])
    ensures Changes(Run(s, DiffLines(diff))) == Expected(Read, s.files, diff)
    decreases |diff|
  {
    if diff != [] {
      RunConcat(s, FileLines(diff[0]), DiffLines(diff[1..]));
      FileReadsBack(s, diff[0]);
      var first := Run(s, FileLines(diff[0]));
      if first.Going? {
        DiffReadsBack(first.state, diff[1..]);
      }
    }
  }

  // ---- the text

  lemma {:induction false} TrimIgnoresEnding(line: string, ending: string)
    requires ending == "" || ending == "\r"
    ensures TrimTrailing(line + ending) == TrimTrailing(line)
  {
    if ending == "" {
      assert line + ending == line;
    } else {
      assert (line + ending)[..|line + ending| - 1] == line;
    }
  }

  lemma LinesOfMore(line: string, rest: string)
    requires '\n' !in line
    ensures Lines(line + ['\n'] + rest) == [line] + Lines(rest)
  {
    var text := line + ['\n'] + rest;
    IndexOfAfter(line, '\n', rest);
    assert text[..|line|] == line && text[|line| + 1..] == rest;
  }

  /** The text reads as its lines do, whichever way they end. */
  lemma {:induction false} TextReads(s: State, lines: seq<string>, ending: string)
    requires (ending == "" || ending == "\r") && forall line | line in lines :: '\n' !in line
    ensures Changes(Run(s, Lines(Text(lines, ending + "\n")))) == Changes(Run(s, lines))
    decreases |lines|
  {
    if lines == [] {
      RunOne(s, "");
      assert Lines("") == [""];
    } else {
      var line, rest := lines[0], Text(lines[1..], ending + "\n");
      assert Text(lines, ending + "\n") == (line + ending) + ['\n'] + rest;
      LinesOfMore(line + ending, rest);
      TrimIgnoresEnding(line, ending);
      RunConcat(s, [line + ending], Lines(rest));
      RunOne(s, line + ending);
      var first := Step(s, TrimTrailing(line));
      if first.Going? {
        TextReads(first.state, lines[1..], ending);
      }
    }
  }

  predicate AddsLines(f: FileDiff) {
    f.Listed? && exists k :: 0 <= k < |f.hunks| && !AddsNothing(f.hunks[k].edits)
  }

  /** No file that lines are added to is taken for another. */
  predicate NamesAreKept(diff: seq<FileDiff>) {
    forall k | 0 <= k < |diff| && AddsLines(diff[k]) :: KeepsName(diff[k].newName)
  }

  lemma {:induction false} NothingToRecord(files: ChangedLines, path: string, hunks: seq<Hunk>)
    requires forall k | 0 <= k < |hunks| :: AddsNothing(hunks[k].edits)
    ensures RecordHunks(files, path, hunks) == Going(files)
    decreases |hunks|
  {
    if hunks != [] && path != "" {
      assert AddsNothing(hunks[0].edits);
      NothingAdded(hunks[0].edits, hunks[0].newStart);
      NothingToRecord(files, path, hunks[1..]);
    }
  }

  /** Where names are kept, what is read is what was meant. */
  lemma {:induction false} KeptNamesRecordAlike(files: ChangedLines, diff: seq<FileDiff>)
    requires (forall k | 0 <= k < |diff| :: IsFile(diff[k])) && NamesAreKept(diff)
    ensures Expected(Read, files, diff) == Expected(Meant, files, diff)
    decreases |diff|
  {
    if diff != [] {
      var f, rest := diff[0], diff[1..];
      assert IsFile(f) && (AddsLines(f) ==> KeepsName(f.newName));
      if f.Mentioned? {
        KeptNamesRecordAlike(files, rest);
      } else {
        if AddsLines(f) {
          NameIsKeptExactly(f.newName);
        } else {
          NothingToRecord(files, PathOf(f.newName), f.hunks);
          NothingToRecord(files, PathRead(f.newName), f.hunks);
        }
        var recorded := RecordHunks(files, PathOf(f.newName), f.hunks);
        if recorded.Going? {
          KeptNamesRecordAlike(recorded.state, rest);
        }
      }
    }
  }

  /**
    Every edit script printed as a unified diff, of any number of files and hunks, under any names,
    reads back as exactly the new-file positions of its added lines in the files its names are read
    as, as far as the limits allow, and so in the files they stand for wherever names are kept.
   */
  lemma PrintedDiffReadsBack(diff: seq<FileDiff>, ending: string)
    requires (ending == "" || ending == "\r") && forall line | line in DiffLines(diff) :: '\n' !in line
    requires forall k | 0 <= k < |diff| :: IsFile(diff[k])
    ensures var text := Text(DiffLines(diff), ending + "\n");
            && Parse(text) == (if |text| > MAXIMUM_DIFF_BYTES then LimitExceeded else Expected(Read, map[], diff))
            && (NamesAreKept(diff) ==> Expected(Read, map[], diff) == Expected(Meant, map[], diff))
  {
    TextReads(START, DiffLines(diff), ending);
    DiffReadsBack(START, diff);
    if NamesAreKept(diff) {
      KeptNamesRecordAlike(map[], diff);
    }
  }

  // ---- what is expected

  function HunksAdd(hunks: seq<Hunk>): set<nat> {
    if hunks == [] then {} else PositionSet(hunks[0].edits, hunks[0].newStart) + HunksAdd(hunks[1..])
  }

  function FileAdds(naming: Naming, f: FileDiff, path: string): set<nat> {
    if f.Listed? && NameOf(naming, f.newName) == path && path != "" then HunksAdd(f.hunks) else {}
  }

  /** The positions of every line any hunk of any file of this name adds. */
  function DiffAdds(naming: Naming, diff: seq<FileDiff>, path: string): set<nat> {
    if diff == [] then {} else FileAdds(naming, diff[0], path) + DiffAdds(naming, diff[1..], path)
  }

  lemma {:induction false} HunksAreRecorded(files: ChangedLines, path: string, hunks: seq<Hunk>, other: string)
    requires path != "" && RecordHunks(files, path, hunks).Going?
    ensures LinesOf(RecordHunks(files, path, hunks).state, other)
            == LinesOf(files, other) + (if other == path then HunksAdd(hunks) else {})
    decreases |hunks|
  {
    if hunks != [] {
      var positions := Positions(hunks[0].edits, hunks[0].newStart);
      RecordedLines(files, path, positions, other);
      HunksAreRecorded(RecordAll(files, path, positions).state, path, hunks[1..], other);
    }
  }

  /** What is recorded of a file is what was recorded before and what its hunks add. */
  lemma {:induction false} DiffIsRecorded(naming: Naming, files: ChangedLines, diff: seq<FileDiff>, path: string)
    requires Expected(naming, files, diff).Going?
    ensures LinesOf(Expected(naming, files, diff).state, path) == LinesOf(files, path) + DiffAdds(naming, diff, path)
    decreases |diff|
  {
    if diff != [] {
      if diff[0].Mentioned? {
        DiffIsRecorded(naming, files, diff[1..], path);
      } else {
        var owner := NameOf(naming, diff[0].newName);
        var more := RecordHunks(files, owner, diff[0].hunks);
        if owner != "" {
          HunksAreRecorded(files, owner, diff[0].hunks, path);
        }
        DiffIsRecorded(naming, more.state, diff[1..], path);
      }
    }
  }

  /**
    Whenever such a diff is accepted, the changed lines of each file are the lines added to it and
    no others: added under names that are read as it, and meant for it wherever names are kept.
   */
  lemma AcceptedDiffIsItsAddedLines(diff: seq<FileDiff>, ending: string, path: string)
    requires (ending == "" || ending == "\r") && forall line | line in DiffLines(diff) :: '\n' !in line
    requires forall k | 0 <= k < |diff| :: IsFile(diff[k])
    ensures var changed := Parse(Text(DiffLines(diff), ending + "\n"));
            changed.Going? ==>
              && LinesOf(changed.state, path) == DiffAdds(Read, diff, path)
              && (NamesAreKept(diff) ==> LinesOf(changed.state, path) == DiffAdds(Meant, diff, path))
  {
    PrintedDiffReadsBack(diff, ending);
    if Expected(Read, map[], diff).Going? {
      DiffIsRecorded(Read, map[], diff, path);
      if NamesAreKept(diff) {
        DiffIsRecorded(Meant, map[], diff, path);
      }
    }
  }

  // ---- when the limits allow it

  function HunksCount(hunks: seq<Hunk>): nat {
    if hunks == [] then 0 else |Positions(hunks[0].edits, hunks[0].newStart)| + HunksCount(hunks[1..])
  }

  function FileCount(naming: Naming, f: FileDiff, path: string): nat {
    if f.Listed? && NameOf(naming, f.newName) == path && path != "" then HunksCount(f.hunks) else 0
  }

  /** How many lines are added under this name, in all. */
  function DiffCount(naming: Naming, diff: seq<FileDiff>, path: string): nat {
    if diff == [] then 0 else FileCount(naming, diff[0], path) + DiffCount(naming, diff[1..], path)
  }

  /** Recorded so far: only files of these names, and this many lines of one of them. */
  ghost predicate Holds(files: ChangedLines, names: set<string>, path: string, n: nat) {
    files.Keys <= names && |LinesOf(files, path)| <= n
  }

  lemma OneMoreFits(files: ChangedLines, names: set<string>, path: string, line: nat, other: string, n: nat)
    requires |names| <= MAXIMUM_DIFF_FILES && path in names && Holds(files, names, other, n)
    requires |LinesOf(files, path)| < MAXIMUM_CHANGED_LINES_PER_FILE
    ensures Record(files, path, line).Going?
    ensures Holds(Record(files, path, line).state, names, other, n + if other == path then 1 else 0)
  {
    if path !in files {
      FewerKeys(files.Keys, names, path);
    }
  }

  lemma FewerKeys(keys: set<string>, names: set<string>, path: string)
    requires keys <= names && path in names && path !in keys
    ensures |keys| < |names|
  {
    assert names == keys + (names - keys);
    assert path in names - keys;
  }

  lemma {:induction false} LinesFit(files: ChangedLines, names: set<string>, path: string, lines: seq<nat>, other: string, n: nat)
    requires |names| <= MAXIMUM_DIFF_FILES && (lines != [] ==> path in names) && Holds(files, names, other, n)
    requires |LinesOf(files, path)| + |lines| <= MAXIMUM_CHANGED_LINES_PER_FILE
    ensures RecordAll(files, path, lines).Going?
    ensures Holds(RecordAll(files, path, lines).state, names, other, n + if other == path then |lines| else 0)
    decreases |lines|
  {
    if lines != [] {
      OneMoreFits(files, names, path, lines[0], other, n);
      OneMoreFits(files, names, path, lines[0], path, |LinesOf(files, path)|);
      LinesFit(Record(files, path, lines[0]).state, names, path, lines[1..], other, n + if other == path then 1 else 0);
    }
  }

  lemma {:induction false} HunksFit(files: ChangedLines, names: set<string>, path: string, hunks: seq<Hunk>, other: string, n: nat)
    requires |names| <= MAXIMUM_DIFF_FILES && (HunksCount(hunks) > 0 ==> path in names) && Holds(files, names, other, n)
    requires |LinesOf(files, path)| + HunksCount(hunks) <= MAXIMUM_CHANGED_LINES_PER_FILE
    ensures RecordHunks(files, path, hunks).Going?
    ensures Holds(RecordHunks(files, path, hunks).state, names, other,
                  n + if other == path && path != "" then HunksCount(hunks) else 0)
    decreases |hunks|
  {
    if hunks != [] && path != "" {
      var lines := Positions(hunks[0].edits, hunks[0].newStart);
      LinesFit(files, names, path, lines, other, n);
      LinesFit(files, names, path, lines, path, |LinesOf(files, path)|);
      HunksFit(RecordAll(files, path, lines).state, names, path, hunks[1..], other, n + if other == path then |lines| else 0);
    }
  }

  /** A diff of no more files and no more added lines to any of them than the limits is accepted. */
  lemma {:induction false} DiffFits(naming: Naming, files: ChangedLines, diff: seq<FileDiff>, names: set<string>)
    requires |names| <= MAXIMUM_DIFF_FILES && files.Keys <= names
    requires forall path :: DiffCount(naming, diff, path) > 0 ==> path in names
    requires forall path :: |LinesOf(files, path)| + DiffCount(naming, diff, path) <= MAXIMUM_CHANGED_LINES_PER_FILE
    ensures Expected(naming, files, diff).Going?
    decreases |diff|
  {
    if diff != [] {
      var f, rest := diff[0], diff[1..];
      if f.Mentioned? {
        assert forall path :: DiffCount(naming, rest, path) == DiffCount(naming, diff, path);
        DiffFits(naming, files, rest, names);
      } else {
        var owner := NameOf(naming, f.newName);
        assert forall path :: DiffCount(naming, diff, path) == FileCount(naming, f, path) + DiffCount(naming, rest, path);
        if owner == "" {
          DiffFits(naming, files, rest, names);
        } else {
          assert FileCount(naming, f, owner) == HunksCount(f.hunks);
          HunksFit(files, names, owner, f.hunks, owner, |LinesOf(files, owner)|);
          var more := RecordHunks(files, owner, f.hunks).state;
          forall path ensures |LinesOf(more, path)| + DiffCount(naming, rest, path) <= MAXIMUM_CHANGED_LINES_PER_FILE {
            HunksFit(files, names, owner, f.hunks, path, |LinesOf(files, path)|);
          }
          DiffFits(naming, more, rest, names);
        }
      }
    }
  }
}
