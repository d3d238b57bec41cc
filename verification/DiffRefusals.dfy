/** Which texts the diff reader refuses, for what, and what it leaves of the limits on those it accepts. */
module DiffRefusals {
  import opened Options
  import opened Decimals
  import opened UnifiedDiff

  // ---- hunk headers

  predicate HoldsPair(s: string) {
    exists k :: 0 <= k < |s| - 1 && s[k] == ' ' && s[k + 1] == '+'
  }

  /** The old span up to the first blank and plus, the new start, perhaps a comma and more, a blank and the rest. */
  ghost predicate IsHeader(line: string, skipped: string, digits: string, count: string, tail: string, start: nat) {
    && line == "@@ -" + skipped + " +" + digits + count + " " + tail && !HoldsPair(skipped)
    && digits != "" && AllDigits(digits) && NumeralValue(digits) == start < 0x1_0000_0000
    && (count == "" || count[0] == ',') && ' ' !in count
  }

  ghost predicate StartsHunk(line: string, start: nat) {
    exists skipped, digits, count, tail :: IsHeader(line, skipped, digits, count, tail, start)
  }

  lemma {:induction false} IndexIsFirst(s: string, c: char, i: nat)
    ensures i < IndexOf(s, c) ==> s[i] != c
    ensures i <= |s| && (i < |s| ==> s[i] == c) && (forall k | 0 <= k < i :: s[k] != c) ==> IndexOf(s, c) == i
  {
    if s != "" && s[0] != c && i > 0 {
      IndexIsFirst(s[1..], c, i - 1);
      assert forall k | 0 <= k < |s| - 1 :: s[1..][k] == s[k + 1];
    }
  }

  lemma {:induction false} PairIsFirst(s: string, i: nat)
    ensures i < IndexOfPair(s, ' ', '+') && i + 1 < |s| ==> !(s[i] == ' ' && s[i + 1] == '+')
    ensures i + 1 < |s| && s[i] == ' ' && s[i + 1] == '+' && !HoldsPair(s[..i + 1]) ==> IndexOfPair(s, ' ', '+') == i
  {
    if |s| >= 2 && i > 0 {
      PairIsFirst(s[1..], i - 1);
      if i + 1 < |s| && !HoldsPair(s[..i + 1]) {
        assert !(s[..i + 1][0] == ' ' && s[..i + 1][1] == '+');
        forall k | 0 <= k < i - 1 ensures !(s[1..][..i][k] == ' ' && s[1..][..i][k + 1] == '+') {
          assert s[1..][..i][k] == s[..i + 1][k + 1] && s[1..][..i][k + 1] == s[..i + 1][k + 2];
        }
        assert !HoldsPair(s[1..][..i]);
      }
    }
  }

  lemma NoPairBefore(skipped: string, s: string)
    requires !HoldsPair(skipped) && s == "@@ -" + skipped + " "
    ensures !HoldsPair(s)
  {
    forall k | 0 <= k < |s| - 1 ensures !(s[k] == ' ' && s[k + 1] == '+') {
      assert 4 <= k < |s| - 2 ==> s[k] == skipped[k - 4] && s[k + 1] == skipped[k - 3];
    }
  }

  lemma SpanIsRead(rest: string, digits: string, count: string, tail: string)
    requires rest == digits + count + " " + tail && AllDigits(digits) && (count == "" || count[0] == ',') && ' ' !in count
    ensures var end := IndexOf(rest, ' ');
      end < |rest| && var span := rest[..end]; span[..IndexOf(span, ',')] == digits
  {
    var span := digits + count;
    forall k | 0 <= k < |span| ensures rest[k] != ' ' {
      assert rest[k] == span[k];
      if k >= |digits| {
        assert span[k] == count[k - |digits|] && count[k - |digits|] in count;
      }
    }
    assert rest[|span|] == ' ' && rest[..|span|] == span;
    IndexIsFirst(rest, ' ', |span|);
    forall k | 0 <= k < |digits| ensures span[k] != ',' {
      assert IsDigit(digits[k]);
    }
    assert count != "" ==> span[|digits|] == count[0];
    IndexIsFirst(span, ',', |digits|);
    assert span[..|digits|] == digits;
  }

  lemma PlusIsFound(line: string, skipped: string, rest: string)
    requires line == "@@ -" + skipped + " +" + rest && !HoldsPair(skipped)
    ensures var plus := 4 + |skipped|; StartsWith(line, "@@ -") && IndexOfPair(line, ' ', '+') == plus < |line| && line[plus + 2..] == rest
  {
    var plus := 4 + |skipped|;
    assert line[..plus + 1] == "@@ -" + skipped + " " && line[plus + 2..] == rest;
    assert line[..4] == "@@ -" && line[plus] == ' ' && line[plus + 1] == '+';
    NoPairBefore(skipped, line[..plus + 1]);
    PairIsFirst(line, plus);
  }

  lemma HeaderIsRead(line: string, skipped: string, digits: string, count: string, tail: string, start: nat)
    requires IsHeader(line, skipped, digits, count, tail, start)
    ensures ParseHunkStart(line) == Some(start)
  {
    var rest := digits + count + " " + tail;
    var front := "@@ -" + skipped + " +";
    assert front + digits + count + " " + tail == front + rest;
    PlusIsFound(line, skipped, rest);
    SpanIsRead(rest, digits, count, tail);
  }

  lemma ReadIsHeader(line: string, start: nat)
    requires ParseHunkStart(line) == Some(start)
    ensures StartsHunk(line, start)
  {
    var plus := IndexOfPair(line, ' ', '+');
    assert line[0] == "@@ -"[0] && line[1] == "@@ -"[1] && line[2] == "@@ -"[2] && line[3] == "@@ -"[3] by {
      assert line[..4] == "@@ -";
    }
    var rest := line[plus + 2..];
    var end := IndexOf(rest, ' ');
    var span := rest[..end];
    var comma := IndexOf(span, ',');
    var skipped, digits, count, tail := line[4..plus], span[..comma], span[comma..], rest[end + 1..];
    forall k | 0 <= k < |skipped| - 1 ensures !(skipped[k] == ' ' && skipped[k + 1] == '+') {
      PairIsFirst(line, k + 4);
    }
    forall k | 0 <= k < |count| ensures count[k] != ' ' {
      IndexIsFirst(rest, ' ', comma + k);
    }
    Reassembled(line, plus, rest, end, span, comma);
    assert IsHeader(line, skipped, digits, count, tail, start);
  }

  lemma Reassembled(line: string, plus: nat, rest: string, end: nat, span: string, comma: nat)
    requires 4 <= plus < |line| - 1 && line[..4] == "@@ -" && line[plus] == ' ' && line[plus + 1] == '+'
    requires rest == line[plus + 2..] && end < |rest| && rest[end] == ' ' && span == rest[..end] && comma <= |span|
    ensures line == "@@ -" + line[4..plus] + " +" + span[..comma] + span[comma..] + " " + rest[end + 1..]
  {
    assert span == span[..comma] + span[comma..];
    assert rest == span + " " + rest[end + 1..];
    assert line[plus..plus + 2] == " +";
    assert line == line[..4] + line[4..plus] + line[plus..plus + 2] + rest;
  }

  /** A hunk header gives a start exactly when it has this shape, and then that one. */
  lemma HunkStartExactly(line: string, start: nat)
    ensures ParseHunkStart(line) == Some(start) <==> StartsHunk(line, start)
  {
    if StartsHunk(line, start) {
      var skipped, digits, count, tail :| IsHeader(line, skipped, digits, count, tail, start);
      HeaderIsRead(line, skipped, digits, count, tail, start);
    }
    if ParseHunkStart(line) == Some(start) {
      ReadIsHeader(line, start);
    }
  }

  // ---- what a line is refused for

  /** A line that looks like a hunk header and gives no start. */
  ghost predicate IsBadHeader(line: string) {
    StartsWith(line, "@@") && forall start: nat :: !StartsHunk(line, start)
  }

  /** An added line, in a hunk of a file, that there is no more room for. */
  predicate IsOneTooMany(s: State, line: string) {
    && s.inHunk && s.currentFile != "" && StartsWith(line, "+") && !StartsWith(line, "+++ ")
    && if s.currentFile in s.files then |s.files[s.currentFile]| >= 500_000 else |s.files| >= 20_000
  }

  lemma LineRefusedExactly(s: State, line: string)
    ensures Step(s, line) == MalformedDiff <==> IsBadHeader(line)
    ensures Step(s, line) == LimitExceeded <==> IsOneTooMany(s, line)
  {
    MarksDiffer(line);
    forall start: nat ensures ParseHunkStart(line) == Some(start) <==> StartsHunk(line, start) {
      HunkStartExactly(line, start);
    }
  }

  lemma MarksDiffer(line: string)
    ensures StartsWith(line, "@@") ==> !StartsWith(line, "+++ ") && !StartsWith(line, "--- ") && !StartsWith(line, "diff ")
                                       && !StartsWith(line, "index ") && !StartsWith(line, "+")
    ensures StartsWith(line, "+") ==> !StartsWith(line, "--- ") && !StartsWith(line, "diff ") && !StartsWith(line, "index ")
  {
    assert StartsWith(line, "@@") ==> line[..2][0] == '@';
    assert StartsWith(line, "+") ==> line[..1][0] == '+';
    assert StartsWith(line, "+++ ") ==> line[..4][0] == '+';
    assert StartsWith(line, "--- ") ==> line[..4][0] == '-';
    assert StartsWith(line, "diff ") ==> line[..5][0] == 'd';
    assert StartsWith(line, "index ") ==> line[..6][0] == 'i';
  }

  /** The lines before the k-th are read, leaving the reader here. */
  ghost predicate ReadsTo(lines: seq<string>, k: int, s: State) {
    0 <= k < |lines| && Run(START, lines[..k]) == Going(s)
  }

  lemma {:induction false} RefusedAtALine(s: State, lines: seq<string>, why: Outcome<State>) returns (k: nat, t: State)
    requires Run(s, lines) == why && !why.Going?
    ensures k < |lines| && Run(s, lines[..k]) == Going(t) && Step(t, TrimTrailing(lines[k])) == why
    decreases |lines|
  {
    var first := Step(s, TrimTrailing(lines[0]));
    if first.Going? {
      var j;
      j, t := RefusedAtALine(first.state, lines[1..], why);
      k := j + 1;
      assert lines[..k] == [lines[0]] + lines[1..][..j];
      RunCons(s, lines[0], lines[1..][..j], lines[..k]);
    } else {
      k, t := 0, s;
    }
  }

  lemma RefusingLineDecides(lines: seq<string>, k: nat, t: State)
    requires ReadsTo(lines, k, t) && !Step(t, TrimTrailing(lines[k])).Going?
    ensures Run(START, lines) == Step(t, TrimTrailing(lines[k]))
  {
    assert lines == lines[..k] + lines[k..];
    RunConcat(START, lines[..k], lines[k..]);
    assert lines[k..] == [lines[k]] + lines[k + 1..];
    RunCons(t, lines[k], lines[k + 1..], lines[k..]);
  }

  ghost predicate MeetsBadHeader(lines: seq<string>) {
    exists k, s :: ReadsTo(lines, k, s) && IsBadHeader(TrimTrailing(lines[k]))
  }

  ghost predicate MeetsOneTooMany(lines: seq<string>) {
    exists k, s :: ReadsTo(lines, k, s) && IsOneTooMany(s, TrimTrailing(lines[k]))
  }

  lemma RunRefusedExactly(lines: seq<string>)
    ensures Run(START, lines) == MalformedDiff <==> MeetsBadHeader(lines)
    ensures Run(START, lines) == LimitExceeded <==> MeetsOneTooMany(lines)
  {
    var end := Run(START, lines);
    if !end.Going? {
      var k, t := RefusedAtALine(START, lines, end);
      LineRefusedExactly(t, TrimTrailing(lines[k]));
      assert ReadsTo(lines, k, t);
    }
    if k, s :| ReadsTo(lines, k, s) && IsBadHeader(TrimTrailing(lines[k])) {
      LineRefusedExactly(s, TrimTrailing(lines[k]));
      RefusingLineDecides(lines, k, s);
    }
    if k, s :| ReadsTo(lines, k, s) && IsOneTooMany(s, TrimTrailing(lines[k])) {
      LineRefusedExactly(s, TrimTrailing(lines[k]));
      RefusingLineDecides(lines, k, s);
    }
  }

  /**
    A diff is malformed exactly when the reader meets a hunk header without a start, and over a limit
    exactly when it is too long or the reader meets an added line there is no more room for.
   */
  lemma DiffRefusedExactly(bytes: string)
    ensures Parse(bytes) == MalformedDiff <==> |bytes| <= 67_108_864 && MeetsBadHeader(Lines(bytes))
    ensures Parse(bytes) == LimitExceeded <==> |bytes| > 67_108_864 || MeetsOneTooMany(Lines(bytes))
  {
    RunRefusedExactly(Lines(bytes));
  }

  // ---- what is accepted keeps the limits

  ghost predicate KeepsLimits(files: ChangedLines) {
    |files| <= 20_000 && forall path | path in files :: 0 < |files[path]| <= 500_000
  }

  lemma RecordKeepsLimits(files: ChangedLines, path: string, line: nat)
    requires KeepsLimits(files) && Record(files, path, line).Going?
    ensures KeepsLimits(Record(files, path, line).state)
  {
    var lines := if path in files then files[path] else {};
    var more := files[path := lines + {line}];
    assert more.Keys == files.Keys + {path};
    assert line in more[path];
  }

  lemma {:induction false} RunKeepsLimits(s: State, lines: seq<string>)
    requires KeepsLimits(s.files) && Run(s, lines).Going?
    ensures KeepsLimits(Run(s, lines).state.files)
    decreases |lines|
  {
    if lines != [] {
      var line := TrimTrailing(lines[0]);
      if Record(s.files, s.currentFile, s.nextLine).Going? {
        RecordKeepsLimits(s.files, s.currentFile, s.nextLine);
      }
      RunKeepsLimits(Step(s, line).state, lines[1..]);
    }
  }

  /** Whatever is accepted has at most 20000 files, each with a changed line and at most 500000. */
  lemma AcceptedKeepsLimits(bytes: string)
    requires Parse(bytes).Going?
    ensures KeepsLimits(Parse(bytes).state)
  {
    RunKeepsLimits(START, Lines(bytes));
  }
}
