/**
  What the reader makes of every printed diff, and exactly which printed diffs it reads as they are
  meant.
 */
module DiffExactness {
  import opened Options
  import opened UnifiedDiff

  // ---- what the reader makes of any printed diff

  /** A line that prints as the header of a file. */
  predicate PrintsHeader(e: Edit) {
    e.Add? && StartsWith(e.text, "++ ")
  }

  /** A line that prints as the end of the hunk. */
  predicate PrintsEnd(e: Edit) {
    e.Remove? && StartsWith(e.text, "-- ")
  }

  /** The positions of the added lines read before the reader takes itself to be out of the hunk. */
  function ReadPositions(edits: seq<Edit>, next: nat): seq<nat> {
    if edits == [] || PrintsHeader(edits[0]) || PrintsEnd(edits[0]) then []
    else
      match edits[0]
      case Keep(_) => ReadPositions(edits[1..], next + 1)
      case Add(_) => [next] + ReadPositions(edits[1..], next + 1)
      case Remove(_) => ReadPositions(edits[1..], next)
      case NoNewline(_) => ReadPositions(edits[1..], next)
  }

  /** The file the reader is in after the lines: the last one they seem to name. */
  function FileAfter(current: string, edits: seq<Edit>): string
    decreases |edits|
  {
    if edits == [] then current
    else FileAfter(if PrintsHeader(edits[0]) then NewFile(TrimTrailing(EditLine(edits[0]))) else current, edits[1..])
  }

  function ReadHunk(r: Reading, h: Hunk): Outcome<Reading> {
    if r.currentFile == "" then Going(Reading(r.files, FileAfter("", h.edits)))
    else In(FileAfter(r.currentFile, h.edits), RecordAll(r.files, r.currentFile, ReadPositions(h.edits, h.newStart)))
  }

  function ReadHunks(r: Reading, hunks: seq<Hunk>): Outcome<Reading>
    decreases |hunks|
  {
    if hunks == [] then Going(r)
    else
      match ReadHunk(r, hunks[0])
      case Going(next) => ReadHunks(next, hunks[1..])
      case MalformedDiff => MalformedDiff
      case LimitExceeded => LimitExceeded
  }

  function ReadDiff(files: ChangedLines, diff: seq<FileDiff>): Outcome<ChangedLines>
    decreases |diff|
  {
    if diff == [] then Going(files)
    else if diff[0].Mentioned? then ReadDiff(files, diff[1..])
    else
      match ReadHunks(Reading(files, PathRead(diff[0].newName)), diff[0].hunks)
      case Going(r) => ReadDiff(r.files, diff[1..])
      case MalformedDiff => MalformedDiff
      case LimitExceeded => LimitExceeded
  }

  lemma {:induction false} OutsideEdits(s: State, edits: seq<Edit>)
    requires !s.inHunk || s.currentFile == ""
    ensures Seen(RunEdits(s, edits)) == Going(Reading(s.files, FileAfter(s.currentFile, edits)))
    decreases |edits|
  {
    if edits != [] {
      RunEdit(s, edits);
      var next := EditStep(s, edits[0]);
      assert next.Going? && next.state.files == s.files && (!next.state.inHunk || next.state.currentFile == "");
      OutsideEdits(next.state, edits[1..]);
    }
  }

  /** What a hunk's lines leave the reader with. */
  function ReadEdits(s: State, edits: seq<Edit>): Outcome<Reading> {
    In(FileAfter(s.currentFile, edits), RecordAll(s.files, s.currentFile, ReadPositions(edits, s.nextLine)))
  }

  function ReadEditsNext(next: Outcome<State>, edits: seq<Edit>): Outcome<Reading> {
    match next
    case Going(t) => ReadEdits(t, edits)
    case MalformedDiff => MalformedDiff
    case LimitExceeded => LimitExceeded
  }

  lemma ReadFirst(edits: seq<Edit>, next: nat, positions: seq<nat>)
    requires edits != [] && !PrintsHeader(edits[0]) && !PrintsEnd(edits[0]) && positions == ReadPositions(edits, next)
    ensures edits[0].Add? ==> positions != [] && positions[0] == next && positions[1..] == ReadPositions(edits[1..], next + 1)
    ensures !edits[0].Add? ==> positions == ReadPositions(edits[1..], next + if edits[0].Keep? then 1 else 0)
  {}

  lemma RecordFirst(files: ChangedLines, path: string, lines: seq<nat>)
    requires lines != []
    ensures RecordAll(files, path, lines) == match Record(files, path, lines[0])
                                             case Going(more) => RecordAll(more, path, lines[1..])
                                             case MalformedDiff => MalformedDiff
                                             case LimitExceeded => LimitExceeded
  {}

  lemma SameFileAfter(current: string, edits: seq<Edit>)
    requires edits != [] && !PrintsHeader(edits[0])
    ensures FileAfter(current, edits) == FileAfter(current, edits[1..])
  {}

  lemma ReadAddition(s: State, edits: seq<Edit>)
    requires edits != [] && edits[0].Add? && s.inHunk && s.currentFile != "" && s.nextLine + 1 < LINE_NUMBERS
    requires !PrintsHeader(edits[0])
    ensures ReadEdits(s, edits) == ReadEditsNext(EditStep(s, edits[0]), edits[1..])
  {
    var positions := ReadPositions(edits, s.nextLine);
    ReadFirst(edits, s.nextLine, positions);
    RecordFirst(s.files, s.currentFile, positions);
    SameFileAfter(s.currentFile, edits);
    var next := EditStep(s, edits[0]);
    if next.Going? {
      var more := Record(s.files, s.currentFile, s.nextLine).state;
      assert next.state == State(more, s.currentFile, s.nextLine + 1, true);
    }
  }

  lemma ReadEditsStep(s: State, edits: seq<Edit>)
    requires edits != [] && s.inHunk && s.currentFile != "" && s.nextLine + 1 < LINE_NUMBERS
    requires !PrintsHeader(edits[0]) && !PrintsEnd(edits[0])
    ensures ReadEdits(s, edits) == ReadEditsNext(EditStep(s, edits[0]), edits[1..])
  {
    if edits[0].Add? {
      ReadAddition(s, edits);
    } else {
      ReadFirst(edits, s.nextLine, ReadPositions(edits, s.nextLine));
      SameFileAfter(s.currentFile, edits);
      NextState(s, edits[0], EditStep(s, edits[0]).state);
    }
  }

  lemma {:induction false} EditsAreRead(s: State, edits: seq<Edit>)
    requires s.inHunk && s.currentFile != "" && s.nextLine + |edits| < LINE_NUMBERS
    ensures Seen(RunEdits(s, edits)) == ReadEdits(s, edits)
    decreases |edits|
  {
    if edits != [] {
      RunEdit(s, edits);
      var e, next := edits[0], EditStep(s, edits[0]);
      if PrintsHeader(e) || PrintsEnd(e) {
        OutsideEdits(next.state, edits[1..]);
      } else {
        ReadEditsStep(s, edits);
        if next.Going? {
          NextState(s, e, next.state);
          EditsAreRead(next.state, edits[1..]);
        }
      }
    }
  }

  lemma HunkIsRead(s: State, h: Hunk)
    requires IsPrintedHunk(h)
    ensures Seen(Run(s, HunkLines(h))) == ReadHunk(Reading(s.files, s.currentFile), h)
  {
    var t := State(s.files, s.currentFile, h.newStart, true);
    HunkHeaderStep(s, h);
    assert HunkLines(h)[0] == HunkHeader(h) && HunkLines(h)[1..] == EditLines(h.edits);
    assert Run(s, HunkLines(h)) == RunEdits(t, h.edits);
    if s.currentFile == "" {
      OutsideEdits(t, h.edits);
    } else {
      EditsAreRead(t, h.edits);
    }
  }

  lemma {:induction false} HunksAreRead(s: State, hunks: seq<Hunk>)
    requires forall k | 0 <= k < |hunks| :: IsPrintedHunk(hunks[k])
    ensures Seen(Run(s, HunksLines(hunks))) == ReadHunks(Reading(s.files, s.currentFile), hunks)
    decreases |hunks|
  {
    if hunks != [] {
      RunConcat(s, HunkLines(hunks[0]), HunksLines(hunks[1..]));
      HunkIsRead(s, hunks[0]);
      var first := Run(s, HunkLines(hunks[0]));
      if first.Going? {
        HunksAreRead(first.state, hunks[1..]);
      }
    }
  }

  /** A file as printed, whatever its name and its lines say. */
  predicate IsPrintedFile(f: FileDiff) {
    match f
    case Mentioned(headers) => headers != [] && AreHeaders(headers)
    case Listed(headers, _, newName, hunks) =>
      && AreHeaders(headers) && IsNewName(newName)
      && forall k | 0 <= k < |hunks| :: IsPrintedHunk(hunks[k])
  }

  lemma FileIsRead(s: State, f: FileDiff)
    requires IsPrintedFile(f)
    ensures Changes(Run(s, FileLines(f))) == ReadDiff(s.files, [f])
  {
    if f.Mentioned? {
      RunHeaders(s, f.headers);
    } else {
      NamesAreRead(s, f, HunksLines(f.hunks));
      HunksAreRead(State(s.files, PathRead(f.newName), s.nextLine, false), f.hunks);
    }
    assert [f][1..] == [];
  }

  /** On every printed diff, with misread lines or without, this is what the reader ends with. */
  lemma {:induction false} DiffIsRead(s: State, diff: seq<FileDiff>)
    requires forall k | 0 <= k < |diff| :: IsPrintedFile(diff[k])
    ensures Changes(Run(s, DiffLines(diff))) == ReadDiff(s.files, diff)
    decreases |diff|
  {
    if diff != [] {
      RunConcat(s, FileLines(diff[0]), DiffLines(diff[1..]));
      FileIsRead(s, diff[0]);
      var first := Run(s, FileLines(diff[0]));
      assert [diff[0]][1..] == [];
      if first.Going? {
        DiffIsRead(first.state, diff[1..]);
      }
    }
  }

  // ---- the first line a file loses

  function LostIn(edits: seq<Edit>, next: nat): (p: nat)
    requires !ReadsBack(edits)
    ensures p >= next
  {
    match edits[0]
    case Keep(_) => LostIn(edits[1..], next + 1)
    case Add(_) => if PrintsHeader(edits[0]) then next else LostIn(edits[1..], next + 1)
    case Remove(_) =>
      if PrintsEnd(edits[0]) then
        PositionsAreFurtherOn(edits[1..], next);
        var later := Positions(edits[1..], next);
        assert later[0] in later;
        later[0]
      else LostIn(edits[1..], next)
    case NoNewline(_) => LostIn(edits[1..], next)
  }

  /** How many lines of the new file the hunk covers. */
  function NewSpan(edits: seq<Edit>): nat {
    if edits == [] then 0 else (if edits[0].Add? || edits[0].Keep? then 1 else 0) + NewSpan(edits[1..])
  }

  lemma {:induction false} PositionsAreWithin(edits: seq<Edit>, next: nat)
    ensures forall p | p in Positions(edits, next) :: next <= p < next + NewSpan(edits)
    ensures forall p | p in ReadPositions(edits, next) :: next <= p < next + NewSpan(edits)
    decreases |edits|
  {
    if edits != [] {
      PositionsAreWithin(edits[1..], next);
      PositionsAreWithin(edits[1..], next + 1);
    }
  }

  /** The lost line is one the hunk adds, and all that is read of the hunk stands before it. */
  lemma {:induction false} LostIsNotRead(edits: seq<Edit>, next: nat)
    requires !ReadsBack(edits)
    ensures LostIn(edits, next) in Positions(edits, next)
    ensures forall p | p in ReadPositions(edits, next) :: p < LostIn(edits, next)
    decreases |edits|
  {
    var e, rest := edits[0], edits[1..];
    if PrintsEnd(e) {
      PositionsAreFurtherOn(rest, next);
    } else if !PrintsHeader(e) {
      LostIsNotRead(rest, if e.Add? || e.Keep? then next + 1 else next);
    }
  }

  /** The first line of a file that is lost, by its position. */
  function FirstLoss(hunks: seq<Hunk>): Option<nat> {
    if hunks == [] then None
    else if !ReadsBack(hunks[0].edits) then Some(LostIn(hunks[0].edits, hunks[0].newStart))
    else FirstLoss(hunks[1..])
  }

  /** Each hunk starts behind the lines of the one before. */
  predicate HunksAscend(hunks: seq<Hunk>) {
    forall i, j | 0 <= i < j < |hunks| :: hunks[i].newStart + NewSpan(hunks[i].edits) <= hunks[j].newStart
  }

  predicate AllStartFrom(hunks: seq<Hunk>, bound: nat) {
    forall k | 0 <= k < |hunks| :: hunks[k].newStart >= bound
  }

  lemma {:induction false} LossIsFurtherOn(hunks: seq<Hunk>, bound: nat)
    requires AllStartFrom(hunks, bound)
    ensures FirstLoss(hunks).Some? ==> FirstLoss(hunks).value >= bound && FirstLoss(hunks).value in HunksAdd(hunks)
    ensures FirstLoss(hunks).None? <==> forall k | 0 <= k < |hunks| :: ReadsBack(hunks[k].edits)
    decreases |hunks|
  {
    if hunks != [] {
      LossIsFurtherOn(hunks[1..], bound);
      if !ReadsBack(hunks[0].edits) {
        LostIsNotRead(hunks[0].edits, hunks[0].newStart);
      }
    }
  }

  // ---- the least lost line is never made up for

  /** The line of this file is not recorded. */
  ghost predicate Misses(files: ChangedLines, path: string, line: nat) {
    line !in LinesOf(files, path)
  }

  lemma RecordAllMisses(files: ChangedLines, path: string, lines: seq<nat>, other: string, line: nat)
    requires RecordAll(files, path, lines).Going? && Misses(files, other, line)
    requires other == path ==> line !in lines
    ensures Misses(RecordAll(files, path, lines).state, other, line)
  {
    RecordedLines(files, path, lines, other);
  }

  /** Hunks behind the line never record it, in whatever file they are taken to be. */
  lemma {:induction false} LaterHunksMiss(r: Reading, hunks: seq<Hunk>, path: string, line: nat)
    requires AllStartFrom(hunks, line + 1) && Misses(r.files, path, line)
    ensures ReadHunks(r, hunks).Going? ==> Misses(ReadHunks(r, hunks).state.files, path, line)
    decreases |hunks|
  {
    if hunks != [] && ReadHunk(r, hunks[0]).Going? {
      PositionsAreWithin(hunks[0].edits, hunks[0].newStart);
      if r.currentFile != "" {
        RecordAllMisses(r.files, r.currentFile, ReadPositions(hunks[0].edits, hunks[0].newStart), path, line);
      }
      LaterHunksMiss(ReadHunk(r, hunks[0]).state, hunks[1..], path, line);
    }
  }

  lemma {:induction false} NoHeaderNoFile(current: string, edits: seq<Edit>)
    requires forall k | 0 <= k < |edits| :: !PrintsHeader(edits[k])
    ensures FileAfter(current, edits) == current
    decreases |edits|
  {
    if edits != [] {
      NoHeaderNoFile(current, edits[1..]);
    }
  }

  lemma {:induction false} GoodHunkStays(current: string, edits: seq<Edit>)
    requires ReadsBack(edits)
    ensures FileAfter(current, edits) == current
  {
    ReadsBackMeansNoHeader(edits);
    NoHeaderNoFile(current, edits);
  }

  /** Its own first loss, not earlier than this line, or this very line when the file is this one. */
  ghost predicate LosesNoEarlier(hunks: seq<Hunk>, own: bool, line: nat) {
    && (FirstLoss(hunks).Some? ==> FirstLoss(hunks).value >= line)
    && (own ==> FirstLoss(hunks) == Some(line))
  }

  lemma {:induction false} FileMisses(r: Reading, hunks: seq<Hunk>, path: string, line: nat)
    requires r.currentFile != "" && HunksAscend(hunks) && Misses(r.files, path, line)
    requires LosesNoEarlier(hunks, r.currentFile == path, line)
    ensures ReadHunks(r, hunks).Going? ==> Misses(ReadHunks(r, hunks).state.files, path, line)
    decreases |hunks|
  {
    if hunks != [] && ReadHunk(r, hunks[0]).Going? {
      var h, rest := hunks[0], hunks[1..];
      var next := ReadHunk(r, h).state;
      var bound := h.newStart + NewSpan(h.edits);
      PositionsAreWithin(h.edits, h.newStart);
      assert AllStartFrom(rest, bound);
      if ReadsBack(h.edits) {
        GoodHunkStays(r.currentFile, h.edits);
        LossIsFurtherOn(rest, bound);
        RecordAllMisses(r.files, r.currentFile, ReadPositions(h.edits, h.newStart), path, line);
        FileMisses(next, rest, path, line);
      } else {
        LostIsNotRead(h.edits, h.newStart);
        RecordAllMisses(r.files, r.currentFile, ReadPositions(h.edits, h.newStart), path, line);
        assert AllStartFrom(rest, line + 1);
        LaterHunksMiss(next, rest, path, line);
      }
    }
  }

  lemma {:induction false} NothingAddedNothingRead(r: Reading, hunks: seq<Hunk>)
    requires forall k | 0 <= k < |hunks| :: AddsNothing(hunks[k].edits)
    ensures ReadHunks(r, hunks) == Going(r)
    decreases |hunks|
  {
    if hunks != [] {
      var h := hunks[0];
      assert AddsNothing(h.edits);
      NoHeaderNoFile(r.currentFile, h.edits);
      ReadAreAdded(h.edits, h.newStart);
      NothingAdded(h.edits, h.newStart);
      NothingAddedNothingRead(r, hunks[1..]);
    }
  }

  /** The lines read of a hunk are the first ones of those it adds. */
  lemma {:induction false} ReadAreAdded(edits: seq<Edit>, next: nat)
    ensures ReadPositions(edits, next) <= Positions(edits, next)
    decreases |edits|
  {
    if edits != [] {
      ReadAreAdded(edits[1..], next);
      ReadAreAdded(edits[1..], next + 1);
    }
  }

  // ---- the first line of a file that is taken for another

  function FirstAdded(hunks: seq<Hunk>): Option<nat> {
    if hunks == [] then None
    else if AddsNothing(hunks[0].edits) then FirstAdded(hunks[1..])
    else
      PositionsAreFurtherOn(hunks[0].edits, hunks[0].newStart);
      Some(Positions(hunks[0].edits, hunks[0].newStart)[0])
  }

  lemma {:induction false} FirstAddedIsAdded(hunks: seq<Hunk>)
    ensures FirstAdded(hunks).Some? ==> FirstAdded(hunks).value in HunksAdd(hunks)
    ensures FirstAdded(hunks).None? <==> forall k | 0 <= k < |hunks| :: AddsNothing(hunks[k].edits)
    decreases |hunks|
  {
    if hunks != [] {
      FirstAddedIsAdded(hunks[1..]);
      if !AddsNothing(hunks[0].edits) {
        PositionsAreFurtherOn(hunks[0].edits, hunks[0].newStart);
      }
    }
  }

  lemma {:induction false} FirstIsLeast(edits: seq<Edit>, next: nat)
    ensures forall p | p in Positions(edits, next) :: p >= Positions(edits, next)[0]
    decreases |edits|
  {
    if edits != [] {
      if edits[0].Add? {
        PositionsAreFurtherOn(edits[1..], next + 1);
      } else {
        FirstIsLeast(edits[1..], if edits[0].Keep? then next + 1 else next);
      }
    }
  }

  lemma ReadFromTheFirst(edits: seq<Edit>, next: nat)
    requires !AddsNothing(edits)
    ensures Positions(edits, next) != [] && Positions(edits, next)[0] in Positions(edits, next)
    ensures forall p | p in ReadPositions(edits, next) :: p >= Positions(edits, next)[0]
  {
    PositionsAreFurtherOn(edits, next);
    FirstIsLeast(edits, next);
    ReadAreAdded(edits, next);
    var read, added := ReadPositions(edits, next), Positions(edits, next);
    forall k | 0 <= k < |read| ensures read[k] >= added[0] {
      assert read[k] == added[k] && added[k] in added;
    }
  }

  /** A file taken for another records its first line there, and nothing before it anywhere. */
  lemma {:induction false} MisnamedFileMisses(r: Reading, hunks: seq<Hunk>, path: string, line: nat)
    requires HunksAscend(hunks) && Misses(r.files, path, line) && FirstAdded(hunks).Some?
    requires FirstAdded(hunks).value > line || (FirstAdded(hunks).value == line && r.currentFile != path)
    ensures ReadHunks(r, hunks).Going? ==> Misses(ReadHunks(r, hunks).state.files, path, line)
    decreases |hunks|
  {
    var h, rest := hunks[0], hunks[1..];
    if AddsNothing(h.edits) {
      NothingAddedNothingRead(r, [h]);
      assert [h][1..] == [];
      assert ReadHunk(r, h) == Going(r);
      MisnamedFileMisses(r, rest, path, line);
    } else if ReadHunk(r, h).Going? {
      var lines := ReadPositions(h.edits, h.newStart);
      ReadFromTheFirst(h.edits, h.newStart);
      PositionsAreWithin(h.edits, h.newStart);
      assert AllStartFrom(rest, line + 1);
      if r.currentFile != "" {
        RecordAllMisses(r.files, r.currentFile, lines, path, line);
      }
      LaterHunksMiss(ReadHunk(r, h).state, rest, path, line);
    }
  }

  /**
    The file loses none of its lines before this one, and this one when it is this file; one that is
    taken for another loses them all, and is not taken for this one if it loses this one.
   */
  ghost predicate Bounds(f: FileDiff, path: string, line: nat) {
    f.Listed? && f.newName.Named? ==>
      if KeepsName(f.newName) then LosesNoEarlier(f.hunks, PathOf(f.newName) == path, line)
      else
        var first := FirstAdded(f.hunks);
        first.Some? ==> first.value >= line && (first.value == line ==> PathRead(f.newName) != path)
  }

  predicate FileAscends(f: FileDiff) {
    f.Listed? ==> HunksAscend(f.hunks)
  }

  predicate DeletesOnly(f: FileDiff) {
    f.Listed? && f.newName.Gone? ==> forall k | 0 <= k < |f.hunks| :: AddsNothing(f.hunks[k].edits)
  }

  lemma PathIsNotEmpty(n: NewName)
    requires IsNewName(n) && n.Named?
    ensures |PathOf(n)| == |n.path| > 0
  {}

  lemma ListedFileMisses(files: ChangedLines, f: FileDiff, path: string, line: nat)
    requires f.Listed? && IsPrintedFile(f) && FileAscends(f) && DeletesOnly(f) && Bounds(f, path, line)
    requires Misses(files, path, line)
    ensures var read := ReadHunks(Reading(files, PathRead(f.newName)), f.hunks);
            read.Going? ==> Misses(read.state.files, path, line)
  {
    var r := Reading(files, PathRead(f.newName));
    if f.newName.Gone? {
      NothingAddedNothingRead(r, f.hunks);
    } else if KeepsName(f.newName) {
      NameIsKeptExactly(f.newName);
      PathIsNotEmpty(f.newName);
      FileMisses(r, f.hunks, path, line);
    } else {
      FirstAddedIsAdded(f.hunks);
      if FirstAdded(f.hunks).Some? {
        MisnamedFileMisses(r, f.hunks, path, line);
      } else {
        NothingAddedNothingRead(r, f.hunks);
      }
    }
  }

  lemma {:induction false} DiffMisses(files: ChangedLines, diff: seq<FileDiff>, path: string, line: nat)
    requires forall k | 0 <= k < |diff| :: IsOrderedFile(diff[k]) && Bounds(diff[k], path, line)
    requires Misses(files, path, line)
    ensures ReadDiff(files, diff).Going? ==> Misses(ReadDiff(files, diff).state, path, line)
    decreases |diff|
  {
    if diff != [] {
      var f, rest := diff[0], diff[1..];
      assert IsOrderedFile(f) && Bounds(f, path, line);
      if f.Mentioned? {
        DiffMisses(files, rest, path, line);
      } else {
        ListedFileMisses(files, f, path, line);
        var read := ReadHunks(Reading(files, PathRead(f.newName)), f.hunks);
        if read.Going? {
          DiffMisses(read.state.files, rest, path, line);
        }
      }
    }
  }

  // ---- the whole diff

  /** The first line the file itself loses: of a file taken for another, its first line of all. */
  function LossOf(f: FileDiff): Option<nat> {
    if !(f.Listed? && f.newName.Named?) then None
    else if KeepsName(f.newName) then FirstLoss(f.hunks)
    else FirstAdded(f.hunks)
  }

  // A loss: its line, and the length of the path it is at.
  datatype Loss = Loss(line: nat, length: nat)

  /** An earlier line, or the same line at a path at least as long. */
  predicate NotAfter(a: Loss, b: Loss) {
    a.line < b.line || (a.line == b.line && a.length >= b.length)
  }

  lemma {:induction false} LeastOf(values: seq<Option<Loss>>, n: nat) returns (i: nat)
    requires n <= |values| && exists k :: 0 <= k < n && values[k].Some?
    ensures i < n && values[i].Some?
    ensures forall k | 0 <= k < n && values[k].Some? :: NotAfter(values[i].value, values[k].value)
    decreases n
  {
    if j :| 0 <= j < n - 1 && values[j].Some? {
      i := LeastOf(values, n - 1);
      if values[n - 1].Some? && !NotAfter(values[i].value, values[n - 1].value) {
        i := n - 1;
      }
    } else {
      i := n - 1;
    }
  }

  function MeasuredLoss(f: FileDiff): Option<Loss> {
    if LossOf(f).Some? then Some(Loss(LossOf(f).value, |PathOf(f.newName)|)) else None
  }

  /** Of the files that lose the least position, one with the longest path. */
  lemma LeastLoss(diff: seq<FileDiff>, k: nat) returns (i: nat)
    requires k < |diff| && LossOf(diff[k]).Some?
    ensures i < |diff| && LossOf(diff[i]).Some?
    ensures forall j | 0 <= j < |diff| && LossOf(diff[j]).Some? ::
              NotAfter(MeasuredLoss(diff[i]).value, MeasuredLoss(diff[j]).value)
  {
    var losses := seq(|diff|, j requires 0 <= j < |diff| => MeasuredLoss(diff[j]));
    assert losses[k].Some?;
    i := LeastOf(losses, |losses|);
    forall j | 0 <= j < |diff| && LossOf(diff[j]).Some?
      ensures NotAfter(MeasuredLoss(diff[i]).value, MeasuredLoss(diff[j]).value)
    {
      assert losses[j] == MeasuredLoss(diff[j]);
    }
  }

  /** The names a diff is printed with: with one of the two prefixes, or with none. */
  predicate HasUsualName(f: FileDiff) {
    f.Listed? && f.newName.Named? ==> f.newName.prefix == "" || f.newName.prefix == "a/" || f.newName.prefix == "b/"
  }

  /** A printed file whose hunks are in order; a deleted one adds no lines. */
  predicate IsOrderedFile(f: FileDiff) {
    IsPrintedFile(f) && FileAscends(f) && DeletesOnly(f)
  }

  ghost predicate SamePath(f: FileDiff, g: FileDiff) {
    f.Listed? && g.Listed? && f.newName.Named? && g.newName.Named? && PathOf(f.newName) == PathOf(g.newName)
  }

  /** Each file listed once. */
  ghost predicate IsOrdered(diff: seq<FileDiff>) {
    && (forall k | 0 <= k < |diff| :: IsOrderedFile(diff[k]))
    && (forall i, j | 0 <= i < j < |diff| :: !SamePath(diff[i], diff[j]))
  }

  /** Its lines say what they are, and if it has any to record its name does too. */
  predicate ReadsAsMeant(f: FileDiff) {
    f.Listed? ==>
      (forall k | 0 <= k < |f.hunks| :: ReadsBack(f.hunks[k].edits)) && (AddsLines(f) ==> KeepsName(f.newName))
  }

  lemma {:induction false} NothingAddedReadsBack(edits: seq<Edit>)
    requires AddsNothing(edits)
    ensures ReadsBack(edits)
    decreases |edits|
  {
    if edits != [] {
      assert !edits[0].Add?;
      NothingAddedReadsBack(edits[1..]);
    }
  }

  lemma LossMeansMisread(f: FileDiff)
    requires IsPrintedFile(f) && DeletesOnly(f)
    ensures LossOf(f).None? <==> ReadsAsMeant(f)
    ensures LossOf(f).Some? ==> LossOf(f).value in FileAdds(Meant, f, PathOf(f.newName))
  {
    if f.Listed? {
      FirstAddedIsAdded(f.hunks);
      LossIsFurtherOn(f.hunks, 0);
      forall k | 0 <= k < |f.hunks| && AddsNothing(f.hunks[k].edits) ensures ReadsBack(f.hunks[k].edits) {
        NothingAddedReadsBack(f.hunks[k].edits);
      }
      if f.newName.Named? {
        PathIsNotEmpty(f.newName);
      }
    }
  }

  lemma {:induction false} AddedByDiff(naming: Naming, diff: seq<FileDiff>, i: nat, path: string, line: nat)
    requires i < |diff| && line in FileAdds(naming, diff[i], path)
    ensures line in DiffAdds(naming, diff, path)
    decreases |diff|
  {
    if i > 0 {
      AddedByDiff(naming, diff[1..], i - 1, path, line);
    }
  }

  /** A name that is not kept is read as a shorter one. */
  lemma MisreadNameIsShorter(n: NewName)
    requires IsNewName(n) && n.Named? && !KeepsName(n) && n.prefix == ""
    ensures |PathRead(n)| < |PathOf(n)|
  {
    assert n.prefix + n.path == n.path;
    StrippedLength(n.path);
  }

  /** Against the chosen loss, every file is bounded. */
  lemma ChosenLossBounds(diff: seq<FileDiff>, i: nat, j: nat)
    requires IsOrdered(diff) && (forall k | 0 <= k < |diff| :: HasUsualName(diff[k]))
    requires i < |diff| && j < |diff| && LossOf(diff[i]).Some?
    requires LossOf(diff[j]).Some? ==> NotAfter(MeasuredLoss(diff[i]).value, MeasuredLoss(diff[j]).value)
    ensures Bounds(diff[j], PathOf(diff[i].newName), LossOf(diff[i]).value)
  {
    var f := diff[j];
    if f.Listed? && f.newName.Named? {
      assert IsOrderedFile(f) && HasUsualName(f);
      if KeepsName(f.newName) {
        assert j != i ==> !SamePath(diff[i], f) && !SamePath(f, diff[i]);
      } else {
        MisreadNameIsShorter(f.newName);
      }
    }
  }

  /** A diff with a misread line or name loses some line for good. */
  lemma MisreadDiffLosesALine(diff: seq<FileDiff>) returns (path: string, line: nat)
    requires IsOrdered(diff) && (forall k | 0 <= k < |diff| :: HasUsualName(diff[k]))
    requires exists k :: 0 <= k < |diff| && !ReadsAsMeant(diff[k])
    ensures line in DiffAdds(Meant, diff, path)
    ensures ReadDiff(map[], diff).Going? ==> Misses(ReadDiff(map[], diff).state, path, line)
  {
    var k :| 0 <= k < |diff| && !ReadsAsMeant(diff[k]);
    assert IsOrderedFile(diff[k]);
    LossMeansMisread(diff[k]);
    var i := LeastLoss(diff, k);
    path, line := PathOf(diff[i].newName), LossOf(diff[i]).value;
    assert IsOrderedFile(diff[i]);
    LossMeansMisread(diff[i]);
    AddedByDiff(Meant, diff, i, path, line);
    forall j | 0 <= j < |diff| ensures Bounds(diff[j], path, line) {
      ChosenLossBounds(diff, i, j);
    }
    DiffMisses(map[], diff, path, line);
  }

  /**
    A whole printed diff, its hunks in order and each file listed once, within the limits: it is
    read as it is meant exactly when none of its added lines begins "++ ", in no hunk a removed line
    that begins "-- " comes before an added one, and no file that lines are added to is printed
    without a prefix under a path that begins "a/" or "b/" or is /dev/null. No misreadings ever make
    up for each other.
   */
  lemma DiffReadsExactly(diff: seq<FileDiff>, ending: string)
    requires (ending == "" || ending == "\r") && forall line | line in DiffLines(diff) :: '\n' !in line
    requires IsOrdered(diff) && (forall k | 0 <= k < |diff| :: HasUsualName(diff[k]))
    requires Expected(Meant, map[], diff).Going?
    requires |Text(DiffLines(diff), ending + "\n")| <= MAXIMUM_DIFF_BYTES
    ensures Parse(Text(DiffLines(diff), ending + "\n")) == Expected(Meant, map[], diff)
            <==> forall k | 0 <= k < |diff| :: ReadsAsMeant(diff[k])
  {
    if forall k | 0 <= k < |diff| :: ReadsAsMeant(diff[k]) {
      forall k | 0 <= k < |diff| ensures IsFile(diff[k]) && (AddsLines(diff[k]) ==> KeepsName(diff[k].newName)) {
        assert ReadsAsMeant(diff[k]) && IsOrderedFile(diff[k]);
      }
      PrintedDiffReadsBack(diff, ending);
    } else {
      TextReads(START, DiffLines(diff), ending);
      DiffIsRead(START, diff);
      var path, line := MisreadDiffLosesALine(diff);
      DiffIsRecorded(Meant, map[], diff, path);
    }
  }

  // ---- other prefixes

  /** A file of one hunk that adds one line. */
  function OneLineFile(n: NewName): FileDiff {
    Listed([], "", n, [Hunk("1", 1, "", "", [Add("")])])
  }

  lemma OneLineIsRecorded(naming: Naming, files: ChangedLines, n: NewName, rest: seq<FileDiff>)
    requires NameOf(naming, n) !in files && NameOf(naming, n) != "" && |files| < MAXIMUM_DIFF_FILES
    ensures Expected(naming, files, [OneLineFile(n)] + rest) == Expected(naming, files[NameOf(naming, n) := {1}], rest)
  {
    var path, hunks := NameOf(naming, n), OneLineFile(n).hunks;
    var lines := Positions(hunks[0].edits, 1);
    assert hunks[0].edits[1..] == [] && hunks[1..] == [];
    assert lines == [1] && lines[1..] == [];
    assert Record(files, path, 1) == Going(files[path := {1}]);
    assert RecordAll(files, path, lines) == Going(files[path := {1}]);
    assert RecordHunks(files, path, hunks) == Going(files[path := {1}]);
    assert ([OneLineFile(n)] + rest)[1..] == rest;
  }

  lemma OneLineFileIsOrdered(n: NewName)
    requires IsNewName(n) && n.Named?
    ensures IsOrderedFile(OneLineFile(n)) && AddsLines(OneLineFile(n))
  {
    var f := OneLineFile(n);
    assert f.hunks[0].edits[0].Add?;
  }

  lemma TwoNames(diff: seq<FileDiff>, m: NewName, n: NewName, p: string, q: string)
    requires diff == [OneLineFile(m), OneLineFile(n)] && p != q && p != "" && q != ""
    requires PathOf(m) == PathRead(n) == p && PathOf(n) == PathRead(m) == q
    ensures Expected(Read, map[], diff) == Expected(Meant, map[], diff)
  {
    assert diff == [OneLineFile(m)] + [OneLineFile(n)] && [OneLineFile(n)] + [] == [OneLineFile(n)];
    OneLineIsRecorded(Meant, map[], m, [OneLineFile(n)]);
    OneLineIsRecorded(Meant, map[p := {1}], n, []);
    OneLineIsRecorded(Read, map[], m, [OneLineFile(n)]);
    OneLineIsRecorded(Read, map[q := {1}], n, []);
    assert map[p := {1}][q := {1}] == map[q := {1}][p := {1}];
  }

  /**
    With a prefix of its own for every file, two names can be taken for each other: `a/x` without a
    prefix and `x` behind `a/a/` swap, and neither name is kept.
   */
  lemma OddPrefixesCancel(x: string, diff: seq<FileDiff>)
    requires x != "" && HasNoControl(x) && NormalizeSeparators(x) == x
    requires diff == [OneLineFile(Named("", "a/" + x, "")), OneLineFile(Named("a/a/", x, ""))]
    ensures IsOrdered(diff) && !ReadsAsMeant(diff[0]) && !ReadsAsMeant(diff[1])
    ensures Expected(Read, map[], diff) == Expected(Meant, map[], diff)
  {
    var m, n := Named("", "a/" + x, ""), Named("a/a/", x, "");
    SwappedNames(x, m, n);
    OneLineFileIsOrdered(m);
    OneLineFileIsOrdered(n);
    TwoNames(diff, m, n, PathOf(m), PathOf(n));
  }

  lemma SwappedNames(x: string, m: NewName, n: NewName)
    requires x != "" && HasNoControl(x) && NormalizeSeparators(x) == x
    requires m == Named("", "a/" + x, "") && n == Named("a/a/", x, "")
    ensures IsNewName(m) && IsNewName(n) && !KeepsName(m) && !KeepsName(n)
    ensures PathOf(m) == PathRead(n) && PathOf(n) == PathRead(m) && PathOf(m) != PathOf(n)
    ensures PathOf(m) != "" && PathOf(n) != ""
  {
    UnprefixedDirectoryIsLost("a/", x);
    var name := "a/" + x;
    TwoDirectories(x, name);
    DirectoryIsStripped("a/", x, name);
    DirectoryIsStripped("a/", name, "a/a/" + x);
    PathIsNotEmpty(m);
    PathIsNotEmpty(n);
  }

  lemma TwoDirectories(x: string, name: string)
    requires name == "a/" + x
    ensures "a/a/" + x == "a/" + name
  {}
}
