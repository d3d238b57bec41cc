/** The phase-ordered verdict machine over bound policy entries and eligible runs. */
module Evaluator {
  import opened Options
  import opened Rescale
  import opened ScaledComparison
  import opened Policy
  import opened Sorting
  import Lexicographic

  datatype Phase = CompletenessPhase | CorrectnessPhase | HardCeilingPhase

  datatype Outcome = Passed | Failed | NotRun

  datatype Reason = NoReason | BoundViolated | ObservationMissing | EarlierPhaseFailed

  // One eligible attempt and what its receipt observed, by metric.
  datatype Run = Run(attemptId: string, observations: map<string, Quantity>)

  datatype Observed = Observed(attemptId: string, value: int, scaleExponent: int)

  datatype Check = Check(bound: BoundEntry, phase: Phase, outcome: Outcome, reason: Reason, observations: seq<Observed>)

  datatype Receipt = Receipt(
    checks: seq<Check>, blocking: Option<Phase>, checkCount: nat, failedCount: nat, notRunCount: nat)

  function Rank(p: Phase): nat {
    match p case CompletenessPhase => 0 case CorrectnessPhase => 1 case HardCeilingPhase => 2
  }

  const PHASES: seq<Phase> := [CompletenessPhase, CorrectnessPhase, HardCeilingPhase]

  function PhaseOf(b: BoundEntry): Phase {
    if b.entry.checkClass == Completeness then CompletenessPhase
    else if b.metric.budgetClass == "hard_ceiling" then HardCeilingPhase
    else CorrectnessPhase
  }

  // ---- what one check means

  function ComparisonOf(b: BoundEntry, observation: Quantity): Result<Compared> {
    CompareAt(b.metric.direction, b.metric.rounding, b.entry.bound, observation)
  }

  /** This run observed the metric, and what it observed satisfies the bound. */
  predicate Meets(b: BoundEntry, run: Run) {
    && b.entry.metricId in run.observations
    && var c := ComparisonOf(b, run.observations[b.entry.metricId]);
       c.Ok? && Satisfies(b.entry.comparison, c.value.observed, c.value.bound)
  }

  /** The bound is met: there is evidence, and every piece of it agrees. */
  predicate Met(b: BoundEntry, runs: seq<Run>) {
    runs != [] && forall i | 0 <= i < |runs| :: Meets(b, runs[i])
  }

  predicate Reports(b: BoundEntry, run: Run) {
    b.entry.metricId in run.observations
  }

  /** The first comparison that cannot be made, run by run. */
  function FirstError(b: BoundEntry, runs: seq<Run>): Option<RecordRejection> {
    if runs == [] then None
    else if Reports(b, runs[0]) && ComparisonOf(b, runs[0].observations[b.entry.metricId]).Refused? then
      Some(ComparisonOf(b, runs[0].observations[b.entry.metricId]).rejection)
    else FirstError(b, runs[1..])
  }

  /** What the comparable runs reported, at the common scale. */
  function ObservationsOf(b: BoundEntry, runs: seq<Run>): seq<Observed> {
    if runs == [] then []
    else
      var rest := ObservationsOf(b, runs[1..]);
      if Reports(b, runs[0]) && ComparisonOf(b, runs[0].observations[b.entry.metricId]).Ok? then
        var c := ComparisonOf(b, runs[0].observations[b.entry.metricId]).value;
        [Observed(runs[0].attemptId, c.observed, c.exponent)] + rest
      else rest
  }

  /** The check as evaluated: a silent run outweighs a violated bound. */
  function Decided(b: BoundEntry, runs: seq<Run>): Check {
    var silent := runs == [] || exists i :: 0 <= i < |runs| && !Reports(b, runs[i]);
    if silent then Check(b, PhaseOf(b), Failed, ObservationMissing, ObservationsOf(b, runs))
    else if !Met(b, runs) then Check(b, PhaseOf(b), Failed, BoundViolated, ObservationsOf(b, runs))
    else Check(b, PhaseOf(b), Passed, NoReason, ObservationsOf(b, runs))
  }

  function Skipped(b: BoundEntry): Check {
    Check(b, PhaseOf(b), NotRun, EarlierPhaseFailed, [])
  }

  // ---- order of the emitted checks

  predicate KeyBefore(left: string, right: string) {
    Lexicographic.LexLess(Lexicographic.Bytes(left), Lexicographic.Bytes(right))
  }

  predicate CheckBefore(left: BoundEntry, right: BoundEntry) {
    Rank(PhaseOf(left)) < Rank(PhaseOf(right))
    || (PhaseOf(left) == PhaseOf(right) && KeyBefore(left.entry.policyKey, right.entry.policyKey))
  }

  predicate DistinctKeys(bound: seq<BoundEntry>) {
    forall i, j | 0 <= i < j < |bound| :: bound[i].entry.policyKey != bound[j].entry.policyKey
  }

  lemma CheckBeforeIsStrictOrder()
    ensures IsStrictOrder(CheckBefore)
  {
    forall a: BoundEntry, b: BoundEntry, c: BoundEntry
      ensures !CheckBefore(a, a) && (CheckBefore(a, b) && CheckBefore(b, c) ==> CheckBefore(a, c))
    {
      var x, y, z := Lexicographic.Bytes(a.entry.policyKey), Lexicographic.Bytes(b.entry.policyKey), Lexicographic.Bytes(c.entry.policyKey);
      Lexicographic.LexIrreflexive(x);
      if Lexicographic.LexLess(x, y) && Lexicographic.LexLess(y, z) {
        Lexicographic.LexTransitive(x, y, z);
      }
    }
  }

  lemma DistinctKeysSeparate(bound: seq<BoundEntry>)
    requires DistinctKeys(bound)
    ensures Separates(CheckBefore, bound)
  {
    forall i, j | 0 <= i < j < |bound| ensures CheckBefore(bound[i], bound[j]) || CheckBefore(bound[j], bound[i]) {
      var x, y := bound[i].entry.policyKey, bound[j].entry.policyKey;
      Lexicographic.LexTotal(Lexicographic.Bytes(x), Lexicographic.Bytes(y));
      if Lexicographic.Bytes(x) == Lexicographic.Bytes(y) {
        Lexicographic.BytesAreInjective(x, y);
      }
    }
  }

  // ---- the whole evaluation, as a function of the sorted checks

  /** The first comparison of a phase that cannot be made, in emitted order. */
  function PhaseError(sorted: seq<BoundEntry>, runs: seq<Run>, phase: Phase): Option<RecordRejection> {
    if sorted == [] then None
    else if PhaseOf(sorted[0]) == phase && FirstError(sorted[0], runs).Some? then FirstError(sorted[0], runs)
    else PhaseError(sorted[1..], runs, phase)
  }

  predicate PhaseFails(sorted: seq<BoundEntry>, runs: seq<Run>, phase: Phase) {
    exists i :: 0 <= i < |sorted| && PhaseOf(sorted[i]) == phase && !Met(sorted[i], runs)
  }

  /** The first phase, from `rank` on, with an unmet bound. */
  function Blocking(sorted: seq<BoundEntry>, runs: seq<Run>, rank: nat): Result<Option<Phase>>
    requires rank <= 3
    decreases 3 - rank
  {
    if rank == 3 then Ok(None)
    else if PhaseError(sorted, runs, PHASES[rank]).Some? then Refused(PhaseError(sorted, runs, PHASES[rank]).value)
    else if PhaseFails(sorted, runs, PHASES[rank]) then Ok(Some(PHASES[rank]))
    else Blocking(sorted, runs, rank + 1)
  }

  function FinalCheck(b: BoundEntry, runs: seq<Run>, blocking: Option<Phase>): Check {
    if blocking.Some? && Rank(PhaseOf(b)) > Rank(blocking.value) then Skipped(b) else Decided(b, runs)
  }

  function CountOutcome(checks: seq<Check>, outcome: Outcome): nat {
    if checks == [] then 0
    else (if checks[|checks| - 1].outcome == outcome then 1 else 0) + CountOutcome(checks[..|checks| - 1], outcome)
  }

  function ReceiptFor(sorted: seq<BoundEntry>, runs: seq<Run>, blocking: Option<Phase>): Receipt {
    var checks := seq(|sorted|, i requires 0 <= i < |sorted| => FinalCheck(sorted[i], runs, blocking));
    Receipt(checks, blocking, |checks|, CountOutcome(checks, Failed), CountOutcome(checks, NotRun))
  }

  function Evaluation(bound: seq<BoundEntry>, runs: seq<Run>): Result<Receipt> {
    var sorted := Sort(CheckBefore, bound);
    match Blocking(sorted, runs, 0)
    case Refused(e) => Refused(e)
    case Ok(blocking) => Ok(ReceiptFor(sorted, runs, blocking))
  }

  // ---- the machine

  lemma {:induction false} ObservationsSnoc(b: BoundEntry, runs: seq<Run>, run: Run)
    ensures ObservationsOf(b, runs + [run]) == ObservationsOf(b, runs) + ObservationsOf(b, [run])
  {
    if runs == [] {
      assert runs + [run] == [run];
    } else {
      assert (runs + [run])[1..] == runs[1..] + [run];
      ObservationsSnoc(b, runs[1..], run);
    }
  }

  lemma {:induction false} ErrorSnoc(b: BoundEntry, runs: seq<Run>, more: seq<Run>)
    requires FirstError(b, runs) == None
    ensures FirstError(b, runs + more) == FirstError(b, more)
  {
    if runs == [] {
      assert runs + more == more;
    } else {
      assert (runs + more)[1..] == runs[1..] + more;
      ErrorSnoc(b, runs[1..], more);
    }
  }

  lemma NextRun(b: BoundEntry, runs: seq<Run>, i: nat)
    requires i < |runs| && FirstError(b, runs[..i]) == None
    ensures runs[..i + 1] == runs[..i] + [runs[i]]
    ensures ObservationsOf(b, runs[..i + 1]) == ObservationsOf(b, runs[..i]) + ObservationsOf(b, [runs[i]])
    ensures FirstError(b, runs[..i + 1]) == FirstError(b, [runs[i]])
    ensures FirstError(b, [runs[i]]).Some? ==> FirstError(b, runs) == FirstError(b, [runs[i]])
  {
    assert runs[..i + 1] == runs[..i] + [runs[i]];
    ObservationsSnoc(b, runs[..i], runs[i]);
    ErrorSnoc(b, runs[..i], [runs[i]]);
    assert runs == runs[..i] + ([runs[i]] + runs[i + 1..]);
    ErrorSnoc(b, runs[..i], [runs[i]] + runs[i + 1..]);
  }

  /** One check against every eligible run. */
  method EvaluateCheck(b: BoundEntry, runs: seq<Run>) returns (r: Result<Check>)
    ensures FirstError(b, runs).Some? ==> r == Refused(FirstError(b, runs).value)
    ensures FirstError(b, runs).None? ==> r == Ok(Decided(b, runs))
    ensures r.Ok? ==> (r.value.outcome == Failed <==> !Met(b, runs))
  {
    var satisfied := true;
    var silent := 0;
    var observations: seq<Observed> := [];
    for i := 0 to |runs|
      invariant FirstError(b, runs[..i]) == None
      invariant observations == ObservationsOf(b, runs[..i])
      invariant silent >= 0 && (silent > 0 <==> exists j :: 0 <= j < i && !Reports(b, runs[j]))
      invariant satisfied <==> forall j | 0 <= j < i && Reports(b, runs[j]) :: Meets(b, runs[j])
    {
      NextRun(b, runs, i);
      var run := runs[i];
      if b.entry.metricId !in run.observations {
        silent := silent + 1;
        continue;
      }
      var compared := ComparisonOf(b, run.observations[b.entry.metricId]);
      if compared.Refused? {
        return Refused(compared.rejection);
      }
      observations := observations + [Observed(run.attemptId, compared.value.observed, compared.value.exponent)];
      if !Satisfies(b.entry.comparison, compared.value.observed, compared.value.bound) {
        satisfied := false;
      }
    }
    assert runs[..|runs|] == runs;
    if silent > 0 || runs == [] {
      return Ok(Check(b, PhaseOf(b), Failed, ObservationMissing, observations));
    }
    if !satisfied {
      return Ok(Check(b, PhaseOf(b), Failed, BoundViolated, observations));
    }
    return Ok(Check(b, PhaseOf(b), Passed, NoReason, observations));
  }

  /** A check fails exactly when its bound is not met. */
  lemma FailsIffUnmet(b: BoundEntry, runs: seq<Run>)
    ensures Decided(b, runs).outcome == (if Met(b, runs) then Passed else Failed)
  {
  }

  lemma {:induction false} PhaseErrorSkips(sorted: seq<BoundEntry>, runs: seq<Run>, phase: Phase, i: nat)
    requires i < |sorted|
    requires forall j | 0 <= j < i && PhaseOf(sorted[j]) == phase :: FirstError(sorted[j], runs) == None
    ensures PhaseError(sorted, runs, phase) == PhaseError(sorted[i..], runs, phase)
  {
    if i > 0 {
      PhaseErrorSkips(sorted[1..], runs, phase, i - 1);
      assert sorted[1..][i - 1..] == sorted[i..];
    }
  }

  lemma {:induction false} PhaseErrorNone(sorted: seq<BoundEntry>, runs: seq<Run>, phase: Phase)
    ensures PhaseError(sorted, runs, phase) == None <==>
            forall j | 0 <= j < |sorted| && PhaseOf(sorted[j]) == phase :: FirstError(sorted[j], runs) == None
  {
    if sorted != [] {
      PhaseErrorNone(sorted[1..], runs, phase);
    }
  }

  /** Among the first `n` checks one of this phase is not met. */
  predicate FailsWithin(sorted: seq<BoundEntry>, runs: seq<Run>, phase: Phase, n: nat)
    requires n <= |sorted|
  {
    n > 0 && (FailsWithin(sorted, runs, phase, n - 1) || (PhaseOf(sorted[n - 1]) == phase && !Met(sorted[n - 1], runs)))
  }

  lemma {:induction false} FailsWithinMeans(sorted: seq<BoundEntry>, runs: seq<Run>, phase: Phase, n: nat)
    requires n <= |sorted|
    ensures FailsWithin(sorted, runs, phase, n) <==>
            exists j :: 0 <= j < n && PhaseOf(sorted[j]) == phase && !Met(sorted[j], runs)
  {
    if n > 0 {
      FailsWithinMeans(sorted, runs, phase, n - 1);
    }
  }

  function Unreached(b: BoundEntry): Check {
    Check(b, PhaseOf(b), NotRun, NoReason, [])
  }

  /** A check once the phases below `rank` have run. */
  function SoFar(b: BoundEntry, runs: seq<Run>, rank: nat): Check {
    if Rank(PhaseOf(b)) < rank then Decided(b, runs) else Unreached(b)
  }

  ghost predicate RanBelow(checks: seq<Check>, sorted: seq<BoundEntry>, runs: seq<Run>, rank: nat) {
    |checks| == |sorted| && forall i | 0 <= i < |sorted| :: checks[i] == SoFar(sorted[i], runs, rank)
  }

  ghost predicate RanUpTo(checks: seq<Check>, sorted: seq<BoundEntry>, runs: seq<Run>, rank: nat, n: nat) {
    && |checks| == |sorted| && n <= |sorted|
    && (forall j | 0 <= j < n :: checks[j] == SoFar(sorted[j], runs, rank + 1))
    && (forall j | n <= j < |sorted| :: checks[j] == SoFar(sorted[j], runs, rank))
  }

  lemma RunOne(checks: seq<Check>, sorted: seq<BoundEntry>, runs: seq<Run>, rank: nat, i: nat)
    requires i < |sorted| && RanUpTo(checks, sorted, runs, rank, i)
    ensures RanUpTo(checks[i := SoFar(sorted[i], runs, rank + 1)], sorted, runs, rank, i + 1)
    ensures Rank(PhaseOf(sorted[i])) != rank ==> RanUpTo(checks, sorted, runs, rank, i + 1)
  {
    PhaseIsKept(sorted[i], runs, rank);
  }

  /** One pass over the checks, evaluating those of one phase in place. */
  method RunPhase(sorted: seq<BoundEntry>, runs: seq<Run>, rank: nat, checks: seq<Check>)
    returns (r: Result<seq<Check>>, failed: bool)
    requires rank < 3 && RanBelow(checks, sorted, runs, rank)
    ensures PhaseError(sorted, runs, PHASES[rank]).Some? ==> r == Refused(PhaseError(sorted, runs, PHASES[rank]).value)
    ensures PhaseError(sorted, runs, PHASES[rank]).None? ==>
      r.Ok? && RanBelow(r.value, sorted, runs, rank + 1) && failed == PhaseFails(sorted, runs, PHASES[rank])
  {
    var phase := PHASES[rank];
    assert Rank(phase) == rank && forall p: Phase :: Rank(p) == rank ==> p == phase;
    var result := checks;
    failed := false;
    for i := 0 to |sorted|
      invariant forall j | 0 <= j < i && PhaseOf(sorted[j]) == phase :: FirstError(sorted[j], runs) == None
      invariant RanUpTo(result, sorted, runs, rank, i)
      invariant failed == FailsWithin(sorted, runs, phase, i)
    {
      PhaseIsKept(sorted[i], runs, rank);
      RunOne(result, sorted, runs, rank, i);
      if result[i].phase != phase {
        continue;
      }
      var check := EvaluateCheck(sorted[i], runs);
      if check.Refused? {
        PhaseErrorSkips(sorted, runs, phase, i);
        return Refused(check.rejection), failed;
      }
      result := result[i := check.value];
      if check.value.outcome == Failed {
        failed := true;
      }
    }
    PhaseErrorNone(sorted, runs, phase);
    FailsWithinMeans(sorted, runs, phase, |sorted|);
    return Ok(result), failed;
  }

  lemma PhaseIsKept(b: BoundEntry, runs: seq<Run>, rank: nat)
    ensures SoFar(b, runs, rank).phase == PhaseOf(b)
    ensures Rank(PhaseOf(b)) != rank ==> SoFar(b, runs, rank + 1) == SoFar(b, runs, rank)
    ensures Rank(PhaseOf(b)) == rank ==> SoFar(b, runs, rank + 1) == Decided(b, runs)
  {
  }

  /** The phases in order, stopping after the first that fails. */
  method EvaluatePhases(bound: seq<BoundEntry>, runs: seq<Run>) returns (r: Result<Receipt>)
    ensures r == Evaluation(bound, runs)
  {
    var sorted := Sort(CheckBefore, bound);
    var checks := seq(|sorted|, i requires 0 <= i < |sorted| => Unreached(sorted[i]));
    var blocked := false;
    var blockingPhase := CompletenessPhase;
    var rank := 0;
    while rank < |PHASES| && !blocked
      invariant 0 <= rank <= 3 && RanBelow(checks, sorted, runs, rank)
      invariant Blocking(sorted, runs, 0) == if blocked then Ok(Some(blockingPhase)) else Blocking(sorted, runs, rank)
      invariant blocked ==> rank == Rank(blockingPhase) + 1
    {
      var next, failed := RunPhase(sorted, runs, rank, checks);
      if next.Refused? {
        return Refused(next.rejection);
      }
      checks := next.value;
      if failed {
        blocked := true;
        blockingPhase := PHASES[rank];
        assert Rank(blockingPhase) == rank;
      }
      rank := rank + 1;
    }
    var blocking := if blocked then Some(blockingPhase) else None;
    checks := MarkSkipped(sorted, runs, blocking, rank, checks);
    var failedCount, notRunCount := CountChecks(checks);
    return Ok(Receipt(checks, blocking, |checks|, failedCount, notRunCount));
  }

  /** A check that was never reached says so. */
  method MarkSkipped(sorted: seq<BoundEntry>, runs: seq<Run>, blocking: Option<Phase>, rank: nat, checks: seq<Check>)
    returns (marked: seq<Check>)
    requires RanBelow(checks, sorted, runs, rank)
    requires rank == if blocking.Some? then Rank(blocking.value) + 1 else 3
    ensures marked == ReceiptFor(sorted, runs, blocking).checks
  {
    marked := checks;
    for i := 0 to |checks|
      invariant |marked| == |checks|
      invariant forall j | 0 <= j < i :: marked[j] == FinalCheck(sorted[j], runs, blocking)
      invariant forall j | i <= j < |checks| :: marked[j] == checks[j]
    {
      FailsIffUnmet(sorted[i], runs);
      if marked[i].outcome == NotRun {
        marked := marked[i := marked[i].(reason := EarlierPhaseFailed)];
      }
    }
  }

  method CountChecks(checks: seq<Check>) returns (failed: nat, notRun: nat)
    ensures failed == CountOutcome(checks, Failed) && notRun == CountOutcome(checks, NotRun)
  {
    failed, notRun := 0, 0;
    for i := 0 to |checks|
      invariant failed == CountOutcome(checks[..i], Failed) && notRun == CountOutcome(checks[..i], NotRun)
    {
      assert checks[..i + 1][..i] == checks[..i];
      failed := failed + (if checks[i].outcome == Failed then 1 else 0);
      notRun := notRun + (if checks[i].outcome == NotRun then 1 else 0);
    }
    assert checks[..|checks|] == checks;
  }

  // ---- what a receipt says

  lemma {:induction false} BlockingIsLeast(sorted: seq<BoundEntry>, runs: seq<Run>, rank: nat)
    requires rank <= 3
    requires Blocking(sorted, runs, rank).Ok?
    ensures Blocking(sorted, runs, rank).value.None? ==>
      forall i | 0 <= i < |sorted| && Rank(PhaseOf(sorted[i])) >= rank :: Met(sorted[i], runs)
    ensures Blocking(sorted, runs, rank).value.Some? ==>
      var phase := Blocking(sorted, runs, rank).value.value;
      && Rank(phase) >= rank && PhaseFails(sorted, runs, phase)
      && forall i | 0 <= i < |sorted| && rank <= Rank(PhaseOf(sorted[i])) < Rank(phase) :: Met(sorted[i], runs)
    decreases 3 - rank
  {
    if rank < 3 {
      assert Rank(PHASES[rank]) == rank;
      assert forall p: Phase :: Rank(p) == rank ==> p == PHASES[rank];
      if !PhaseFails(sorted, runs, PHASES[rank]) {
        BlockingIsLeast(sorted, runs, rank + 1);
      }
    }
  }

  /** The verdict passed exactly when every bound entry is met by every eligible run. */
  lemma PassedIffEveryBoundMet(bound: seq<BoundEntry>, runs: seq<Run>, receipt: Receipt)
    requires Evaluation(bound, runs) == Ok(receipt)
    ensures receipt.blocking.None? <==> forall i | 0 <= i < |bound| :: Met(bound[i], runs)
  {
    var sorted := Sort(CheckBefore, bound);
    SortKeeps(CheckBefore, bound);
    BlockingIsLeast(sorted, runs, 0);
    if receipt.blocking.None? {
      forall i | 0 <= i < |bound| ensures Met(bound[i], runs) {
        SameMembers(bound, sorted, bound[i]);
      }
    } else {
      var i :| 0 <= i < |sorted| && PhaseOf(sorted[i]) == receipt.blocking.value && !Met(sorted[i], runs);
      SameMembers(sorted, bound, sorted[i]);
    }
  }

  /**
    The shape of every receipt: one check per bound entry, the blocking phase is the least with an
    unmet bound, exactly the later checks did not run, and no earlier check failed.
   */
  lemma ReceiptShape(bound: seq<BoundEntry>, runs: seq<Run>, receipt: Receipt, i: nat)
    requires Evaluation(bound, runs) == Ok(receipt) && i < |receipt.checks|
    ensures |receipt.checks| == |bound| && receipt.checks[i].bound in bound
    ensures receipt.checks[i].phase == PhaseOf(receipt.checks[i].bound)
    ensures receipt.checks[i].outcome == NotRun <==>
      receipt.blocking.Some? && Rank(receipt.checks[i].phase) > Rank(receipt.blocking.value)
    ensures receipt.checks[i].outcome == NotRun <==> receipt.checks[i].reason == EarlierPhaseFailed
    ensures receipt.checks[i].outcome == Passed ==> Met(receipt.checks[i].bound, runs)
    ensures receipt.checks[i].outcome == Failed ==>
      && !Met(receipt.checks[i].bound, runs)
      && receipt.blocking == Some(receipt.checks[i].phase)
    ensures receipt.blocking.Some? ==>
      exists k :: 0 <= k < |receipt.checks| && receipt.checks[k].outcome == Failed
                  && receipt.checks[k].phase == receipt.blocking.value
  {
    var sorted := Sort(CheckBefore, bound);
    SortKeeps(CheckBefore, bound);
    BlockingIsLeast(sorted, runs, 0);
    FailsIffUnmet(sorted[i], runs);
    SameMembers(sorted, bound, sorted[i]);
    assert receipt.checks[i] == FinalCheck(sorted[i], runs, receipt.blocking);
    if receipt.blocking.Some? {
      BlockingCheckFails(sorted, runs, receipt.blocking.value);
    }
  }

  /** The blocking phase has a failed check. */
  lemma BlockingCheckFails(sorted: seq<BoundEntry>, runs: seq<Run>, phase: Phase)
    requires PhaseFails(sorted, runs, phase)
    ensures var checks := ReceiptFor(sorted, runs, Some(phase)).checks;
      exists k :: 0 <= k < |checks| && checks[k].outcome == Failed && checks[k].phase == phase
  {
    var k :| 0 <= k < |sorted| && PhaseOf(sorted[k]) == phase && !Met(sorted[k], runs);
    FailsIffUnmet(sorted[k], runs);
    var checks := ReceiptFor(sorted, runs, Some(phase)).checks;
    assert checks[k] == FinalCheck(sorted[k], runs, Some(phase));
  }

  // ---- why a check failed, and what it was decided from

  /** Why a check has the outcome it has: a silent run outweighs a violated bound. */
  lemma ReasonsSayWhy(bound: seq<BoundEntry>, runs: seq<Run>, receipt: Receipt, i: nat)
    requires Evaluation(bound, runs) == Ok(receipt) && i < |receipt.checks|
    ensures receipt.checks[i].reason == ObservationMissing <==>
      && receipt.checks[i].outcome == Failed
      && (runs == [] || exists k :: 0 <= k < |runs| && receipt.checks[i].bound.entry.metricId !in runs[k].observations)
    ensures receipt.checks[i].reason == BoundViolated <==>
      && receipt.checks[i].outcome == Failed && runs != []
      && forall k | 0 <= k < |runs| :: receipt.checks[i].bound.entry.metricId in runs[k].observations
    ensures receipt.checks[i].reason == NoReason <==> receipt.checks[i].outcome == Passed
  {
    var sorted := Sort(CheckBefore, bound);
    var b := sorted[i];
    assert receipt.checks[i] == FinalCheck(b, runs, receipt.blocking);
    assert receipt.checks[i].bound == b;
    assert forall k | 0 <= k < |runs| :: Reports(b, runs[k]) <==> b.entry.metricId in runs[k].observations;
  }

  /** The runs that observed the metric, in their order. */
  function Reporting(metricId: string, runs: seq<Run>): (r: seq<Run>)
    ensures forall k | 0 <= k < |r| :: metricId in r[k].observations
  {
    if runs == [] then []
    else (if metricId in runs[0].observations then [runs[0]] else []) + Reporting(metricId, runs[1..])
  }

  /** What a run's report becomes in a check: as it stands when the bound moves, at the bound's scale when it moves. */
  ghost predicate IsReportOf(o: Observed, b: BoundEntry, run: Run)
    requires b.entry.metricId in run.observations
  {
    var reported := run.observations[b.entry.metricId];
    && o.attemptId == run.attemptId
    && match b.metric.direction
       case BoundToObservation => o.value == reported.value && o.scaleExponent == reported.exponent
       case ObservationToBound =>
         && o.scaleExponent == b.entry.bound.exponent
         && Moved(reported.value, reported.exponent, b.entry.bound.exponent, b.metric.rounding) == Ok(o.value)
  }

  lemma ReportIs(b: BoundEntry, run: Run, c: Compared)
    requires b.entry.metricId in run.observations && ComparisonOf(b, run.observations[b.entry.metricId]) == Ok(c)
    ensures IsReportOf(Observed(run.attemptId, c.observed, c.exponent), b, run)
  {
    OneSideStands(b.metric.direction, b.metric.rounding, b.entry.bound, run.observations[b.entry.metricId], c);
  }

  ghost predicate AreReports(observations: seq<Observed>, b: BoundEntry, reporting: seq<Run>)
    requires forall k | 0 <= k < |reporting| :: b.entry.metricId in reporting[k].observations
  {
    |observations| == |reporting| && forall k | 0 <= k < |reporting| :: IsReportOf(observations[k], b, reporting[k])
  }

  lemma OneMoreReport(o: Observed, more: seq<Observed>, b: BoundEntry, run: Run, reporting: seq<Run>)
    requires forall k | 0 <= k < |reporting| :: b.entry.metricId in reporting[k].observations
    requires b.entry.metricId in run.observations && IsReportOf(o, b, run) && AreReports(more, b, reporting)
    ensures forall k | 0 <= k < |[run] + reporting| :: b.entry.metricId in ([run] + reporting)[k].observations
    ensures AreReports([o] + more, b, [run] + reporting)
  {
  }

  lemma {:induction false} ObservationsAreReports(b: BoundEntry, runs: seq<Run>)
    requires FirstError(b, runs) == None
    ensures AreReports(ObservationsOf(b, runs), b, Reporting(b.entry.metricId, runs))
  {
    if runs != [] {
      ObservationsAreReports(b, runs[1..]);
      var more, reporting := ObservationsOf(b, runs[1..]), Reporting(b.entry.metricId, runs[1..]);
      if Reports(b, runs[0]) {
        var c := ComparisonOf(b, runs[0].observations[b.entry.metricId]).value;
        ReportIs(b, runs[0], c);
        OneMoreReport(Observed(runs[0].attemptId, c.observed, c.exponent), more, b, runs[0], reporting);
      } else {
        assert Reporting(b.entry.metricId, runs) == [] + reporting == reporting;
      }
    }
  }

  lemma {:induction false} NoPhaseError(sorted: seq<BoundEntry>, runs: seq<Run>, rank: nat, i: nat)
    requires rank <= 3 && i < |sorted| && Blocking(sorted, runs, rank).Ok?
    requires Rank(PhaseOf(sorted[i])) >= rank
    requires Blocking(sorted, runs, rank).value.Some? ==> Rank(PhaseOf(sorted[i])) <= Rank(Blocking(sorted, runs, rank).value.value)
    ensures FirstError(sorted[i], runs) == None
    decreases 3 - rank
  {
    if rank < 3 {
      PhaseErrorNone(sorted, runs, PHASES[rank]);
      assert Rank(PHASES[rank]) == rank && forall p: Phase :: Rank(p) == rank ==> p == PHASES[rank];
      if Rank(PhaseOf(sorted[i])) > rank {
        NoPhaseError(sorted, runs, rank + 1, i);
      }
    }
  }

  /**
    A check that ran lists, in the order of the runs, one observation for each run that reports its
    metric: that run's identity and what it reported. A check that did not run lists none.
   */
  lemma ChecksListTheReports(bound: seq<BoundEntry>, runs: seq<Run>, receipt: Receipt, i: nat)
    requires Evaluation(bound, runs) == Ok(receipt) && i < |receipt.checks|
    ensures var check := receipt.checks[i];
      var reporting := Reporting(check.bound.entry.metricId, runs);
      if check.outcome == NotRun then check.observations == []
      else
        && |check.observations| == |reporting|
        && forall k | 0 <= k < |reporting| :: IsReportOf(check.observations[k], check.bound, reporting[k])
  {
    var sorted := Sort(CheckBefore, bound);
    assert receipt.checks[i] == FinalCheck(sorted[i], runs, receipt.blocking);
    FailsIffUnmet(sorted[i], runs);
    if receipt.checks[i].outcome != NotRun {
      NoPhaseError(sorted, runs, 0, i);
      ObservationsAreReports(sorted[i], runs);
    }
  }

  lemma CheckKeepsEntry(bound: seq<BoundEntry>, runs: seq<Run>, receipt: Receipt, i: nat)
    requires Evaluation(bound, runs) == Ok(receipt) && i < |receipt.checks|
    ensures i < |Sort(CheckBefore, bound)|
    ensures receipt.checks[i].bound == Sort(CheckBefore, bound)[i]
    ensures receipt.checks[i].phase == PhaseOf(receipt.checks[i].bound)
  {
    var sorted := Sort(CheckBefore, bound);
    assert receipt.checks[i] == FinalCheck(sorted[i], runs, receipt.blocking);
    FinalCheckKeepsEntry(sorted[i], runs, receipt.blocking);
  }

  lemma FinalCheckKeepsEntry(b: BoundEntry, runs: seq<Run>, blocking: Option<Phase>)
    ensures FinalCheck(b, runs, blocking).bound == b && FinalCheck(b, runs, blocking).phase == PhaseOf(b)
  {
  }

  /** The check class and the budget class alone decide the phase. */
  lemma ClassesDecideThePhase(bound: seq<BoundEntry>, runs: seq<Run>, receipt: Receipt, i: nat)
    requires Evaluation(bound, runs) == Ok(receipt) && i < |receipt.checks|
    ensures var check := receipt.checks[i];
      && (check.phase == CompletenessPhase <==> check.bound.entry.checkClass == Completeness)
      && (check.phase == HardCeilingPhase
          <==> check.bound.entry.checkClass == Correctness && check.bound.metric.budgetClass == "hard_ceiling")
  {
    CheckKeepsEntry(bound, runs, receipt, i);
  }

  /**
    The order of the checks: completeness first, hard ceilings last, and within a phase by the bytes
    of the keys.
   */
  lemma ChecksStandInPhaseOrder(bound: seq<BoundEntry>, runs: seq<Run>, receipt: Receipt, i: nat, j: nat)
    requires DistinctKeys(bound) && Evaluation(bound, runs) == Ok(receipt) && i < j < |receipt.checks|
    ensures receipt.checks[j].phase == CompletenessPhase ==> receipt.checks[i].phase == CompletenessPhase
    ensures receipt.checks[i].phase == HardCeilingPhase ==> receipt.checks[j].phase == HardCeilingPhase
    ensures receipt.checks[i].phase == receipt.checks[j].phase ==>
      KeyBefore(receipt.checks[i].bound.entry.policyKey, receipt.checks[j].bound.entry.policyKey)
  {
    CheckKeepsEntry(bound, runs, receipt, i);
    CheckKeepsEntry(bound, runs, receipt, j);
    CheckBeforeIsStrictOrder();
    DistinctKeysSeparate(bound);
    SortAscends(CheckBefore, bound);
    BeforeByPhase(receipt.checks[i].bound, receipt.checks[j].bound);
  }

  lemma BeforeByPhase(left: BoundEntry, right: BoundEntry)
    requires CheckBefore(left, right)
    ensures PhaseOf(right) == CompletenessPhase ==> PhaseOf(left) == CompletenessPhase
    ensures PhaseOf(left) == HardCeilingPhase ==> PhaseOf(right) == HardCeilingPhase
    ensures PhaseOf(left) == PhaseOf(right) ==> KeyBefore(left.entry.policyKey, right.entry.policyKey)
  {
  }

  // ---- when an evaluation is refused

  /** The run reports the metric, and what it reports cannot be brought to the bound's scale or the bound to its own. */
  ghost predicate Incomparable(b: BoundEntry, run: Run, why: RecordRejection) {
    && b.entry.metricId in run.observations
    && var observation := run.observations[b.entry.metricId];
       match b.metric.direction {
         case BoundToObservation =>
           Moved(b.entry.bound.value, b.entry.bound.exponent, observation.exponent, b.metric.rounding) == Refused(why)
         case ObservationToBound =>
           Moved(observation.value, observation.exponent, b.entry.bound.exponent, b.metric.rounding) == Refused(why)
       }
  }

  /** The first run that cannot be compared gives this reason. */
  ghost predicate FirstIncomparable(b: BoundEntry, runs: seq<Run>, i: int, why: RecordRejection) {
    && 0 <= i < |runs| && Incomparable(b, runs[i], why)
    && forall j, other | 0 <= j < i :: !Incomparable(b, runs[j], other)
  }

  lemma IncomparableRun(b: BoundEntry, run: Run, why: RecordRejection)
    ensures Incomparable(b, run, why)
            <==> Reports(b, run) && ComparisonOf(b, run.observations[b.entry.metricId]) == Refused(why)
  {
    if Reports(b, run) {
      RefusedWithTheMove(b.metric.direction, b.metric.rounding, b.entry.bound, run.observations[b.entry.metricId], why);
    }
  }

  ghost predicate FailsToCompare(b: BoundEntry, runs: seq<Run>, why: RecordRejection) {
    exists i :: FirstIncomparable(b, runs, i, why)
  }

  lemma {:induction false} FirstErrorMeans(b: BoundEntry, runs: seq<Run>, why: RecordRejection)
    ensures FirstError(b, runs) == Some(why) <==> FailsToCompare(b, runs, why)
  {
    if runs != [] {
      FirstErrorMeans(b, runs[1..], why);
      forall other ensures Incomparable(b, runs[0], other)
                           <==> Reports(b, runs[0]) && ComparisonOf(b, runs[0].observations[b.entry.metricId]) == Refused(other) {
        IncomparableRun(b, runs[0], other);
      }
      if Reports(b, runs[0]) && ComparisonOf(b, runs[0].observations[b.entry.metricId]).Refused? {
        var first := ComparisonOf(b, runs[0].observations[b.entry.metricId]).rejection;
        assert FirstIncomparable(b, runs, 0, first);
        forall i | FirstIncomparable(b, runs, i, why) ensures why == first {
          assert i == 0;
        }
      } else {
        FirstBehind(b, runs, why);
      }
    }
  }

  lemma FirstBehind(b: BoundEntry, runs: seq<Run>, why: RecordRejection)
    requires runs != [] && forall other :: !Incomparable(b, runs[0], other)
    ensures FailsToCompare(b, runs[1..], why) <==> FailsToCompare(b, runs, why)
  {
    if i :| FirstIncomparable(b, runs[1..], i, why) {
      forall j, other | 0 <= j < i + 1 ensures !Incomparable(b, runs[j], other) {
        assert j > 0 ==> runs[1..][j - 1] == runs[j];
      }
      assert FirstIncomparable(b, runs, i + 1, why);
    }
    if i :| FirstIncomparable(b, runs, i, why) {
      forall j, other | 0 <= j < i - 1 ensures !Incomparable(b, runs[1..][j], other) {
        assert runs[1..][j] == runs[j + 1];
      }
      assert FirstIncomparable(b, runs[1..], i - 1, why);
    }
  }

  /** The first check of its phase, in emitted order, that cannot be decided; every earlier phase is met. */
  ghost predicate StopsEvaluation(sorted: seq<BoundEntry>, runs: seq<Run>, k: int, why: RecordRejection) {
    && 0 <= k < |sorted| && FailsToCompare(sorted[k], runs, why)
    && (forall j, other | 0 <= j < k && PhaseOf(sorted[j]) == PhaseOf(sorted[k]) :: !FailsToCompare(sorted[j], runs, other))
    && (forall j | 0 <= j < |sorted| && Rank(PhaseOf(sorted[j])) < Rank(PhaseOf(sorted[k])) :: Met(sorted[j], runs))
  }

  lemma {:induction false} PhaseErrorMeans(sorted: seq<BoundEntry>, runs: seq<Run>, phase: Phase, n: nat)
    requires n <= |sorted|
    requires forall j | 0 <= j < n && PhaseOf(sorted[j]) == phase :: FirstError(sorted[j], runs) == None
    ensures PhaseError(sorted[n..], runs, phase).Some? ==>
      exists k :: && n <= k < |sorted| && PhaseOf(sorted[k]) == phase
                  && FirstError(sorted[k], runs) == PhaseError(sorted[n..], runs, phase)
                  && forall j | 0 <= j < k && PhaseOf(sorted[j]) == phase :: FirstError(sorted[j], runs) == None
    decreases |sorted| - n
  {
    if n < |sorted| {
      assert sorted[n..][0] == sorted[n] && sorted[n..][1..] == sorted[n + 1..];
      if PhaseOf(sorted[n]) != phase || FirstError(sorted[n], runs).None? {
        PhaseErrorMeans(sorted, runs, phase, n + 1);
      }
    }
  }

  lemma NoErrorMeans(b: BoundEntry, runs: seq<Run>)
    ensures FirstError(b, runs) == None <==> forall why :: !FailsToCompare(b, runs, why)
  {
    forall why ensures FirstError(b, runs) == Some(why) <==> FailsToCompare(b, runs, why) {
      FirstErrorMeans(b, runs, why);
    }
  }

  lemma {:induction false} BlockingRefused(sorted: seq<BoundEntry>, runs: seq<Run>, rank: nat, why: RecordRejection)
    requires rank <= 3 && Blocking(sorted, runs, rank) == Refused(why)
    requires forall j | 0 <= j < |sorted| && Rank(PhaseOf(sorted[j])) < rank :: Met(sorted[j], runs)
    ensures exists k :: StopsEvaluation(sorted, runs, k, why)
    decreases 3 - rank
  {
    var phase := PHASES[rank];
    assert Rank(phase) == rank && forall p: Phase :: Rank(p) == rank ==> p == phase;
    if PhaseError(sorted, runs, phase).Some? {
      assert sorted[0..] == sorted;
      PhaseErrorMeans(sorted, runs, phase, 0);
      var k :| && 0 <= k < |sorted| && PhaseOf(sorted[k]) == phase && FirstError(sorted[k], runs) == Some(why)
               && forall j | 0 <= j < k && PhaseOf(sorted[j]) == phase :: FirstError(sorted[j], runs) == None;
      FirstErrorMeans(sorted[k], runs, why);
      forall j, other | 0 <= j < k && PhaseOf(sorted[j]) == phase ensures !FailsToCompare(sorted[j], runs, other) {
        NoErrorMeans(sorted[j], runs);
      }
      assert StopsEvaluation(sorted, runs, k, why);
    } else {
      BlockingRefused(sorted, runs, rank + 1, why);
    }
  }

  ghost predicate IsStopped(sorted: seq<BoundEntry>, runs: seq<Run>, why: RecordRejection) {
    exists k :: StopsEvaluation(sorted, runs, k, why)
  }

  lemma BlockingRefusedExactly(sorted: seq<BoundEntry>, runs: seq<Run>, why: RecordRejection)
    ensures Blocking(sorted, runs, 0) == Refused(why) <==> IsStopped(sorted, runs, why)
  {
    if Blocking(sorted, runs, 0) == Refused(why) {
      BlockingRefused(sorted, runs, 0, why);
    }
    if k :| StopsEvaluation(sorted, runs, k, why) {
      StoppedIsRefused(sorted, runs, 0, k, why);
    }
  }

  /** An evaluation is refused exactly when some check stops it, and with that check's reason. */
  lemma EvaluationRefusedExactly(bound: seq<BoundEntry>, runs: seq<Run>, why: RecordRejection)
    ensures Evaluation(bound, runs) == Refused(why) <==> IsStopped(Sort(CheckBefore, bound), runs, why)
  {
    BlockingRefusedExactly(Sort(CheckBefore, bound), runs, why);
  }

  lemma {:induction false} StoppedIsRefused(sorted: seq<BoundEntry>, runs: seq<Run>, rank: nat, k: int, why: RecordRejection)
    requires StopsEvaluation(sorted, runs, k, why) && rank <= Rank(PhaseOf(sorted[k]))
    ensures Blocking(sorted, runs, rank) == Refused(why)
    decreases 3 - rank
  {
    var phase := PHASES[rank];
    assert Rank(phase) == rank && forall p: Phase :: Rank(p) == rank ==> p == phase;
    if rank < Rank(PhaseOf(sorted[k])) {
      forall j | 0 <= j < |sorted| && PhaseOf(sorted[j]) == phase ensures FirstError(sorted[j], runs) == None {
        MetIsComparable(sorted[j], runs);
      }
      PhaseErrorNone(sorted, runs, phase);
      StoppedIsRefused(sorted, runs, rank + 1, k, why);
    } else {
      forall j | 0 <= j < k && PhaseOf(sorted[j]) == phase ensures FirstError(sorted[j], runs) == None {
        NoErrorMeans(sorted[j], runs);
      }
      PhaseErrorSkips(sorted, runs, phase, k);
      FirstErrorMeans(sorted[k], runs, why);
      assert sorted[k..][0] == sorted[k];
    }
  }

  lemma {:induction false} MetIsComparable(b: BoundEntry, runs: seq<Run>)
    requires forall i | 0 <= i < |runs| :: Meets(b, runs[i])
    ensures FirstError(b, runs) == None
  {
    if runs != [] {
      assert Meets(b, runs[0]);
      MetIsComparable(b, runs[1..]);
    }
  }

  // ---- the verdict and the quantities themselves

  /** The run reports the metric, and the quantity it reports satisfies the bound as written. */
  predicate TrulyMeets(b: BoundEntry, run: Run) {
    && b.entry.metricId in run.observations
    && var observation := run.observations[b.entry.metricId];
       && IsScale(observation.exponent) && IsScale(b.entry.bound.exponent)
       && TrulySatisfies(b.entry.comparison, observation, b.entry.bound)
  }

  /** The metric rounds, if at all, toward the stricter side of this comparison. */
  predicate RoundsStrictly(b: BoundEntry) {
    Conservative(b.metric.direction, b.metric.rounding, b.entry.comparison)
  }

  lemma {:induction false} NoErrorMeansComparable(b: BoundEntry, runs: seq<Run>, i: nat)
    requires FirstError(b, runs) == None && i < |runs| && Reports(b, runs[i])
    ensures ComparisonOf(b, runs[i].observations[b.entry.metricId]).Ok?
  {
    if i > 0 {
      NoErrorMeansComparable(b, runs[1..], i - 1);
    }
  }

  lemma MeetsIsTrue(b: BoundEntry, run: Run)
    requires RoundsStrictly(b)
    requires Reports(b, run) ==> ComparisonOf(b, run.observations[b.entry.metricId]).Ok?
    ensures Meets(b, run) <==> TrulyMeets(b, run)
  {
    if Reports(b, run) {
      var observation := run.observations[b.entry.metricId];
      ConservativeRulesNeverErr(b.metric.direction, b.metric.rounding, b.entry.comparison, b.entry.bound, observation,
                                ComparisonOf(b, observation).value);
    }
  }

  ghost predicate TrulyMet(b: BoundEntry, runs: seq<Run>) {
    runs != [] && forall i | 0 <= i < |runs| :: TrulyMeets(b, runs[i])
  }

  lemma MetIsTrue(b: BoundEntry, runs: seq<Run>)
    requires RoundsStrictly(b) && FirstError(b, runs) == None
    ensures Met(b, runs) <==> TrulyMet(b, runs)
  {
    forall i | 0 <= i < |runs| ensures Meets(b, runs[i]) <==> TrulyMeets(b, runs[i]) {
      if Reports(b, runs[i]) {
        NoErrorMeansComparable(b, runs, i);
      }
      MeetsIsTrue(b, runs[i]);
    }
  }

  /**
    Where every metric rounds toward the stricter side, a verdict is passed exactly when there are
    runs and every one of them reports, for every entry, a quantity that satisfies the bound itself.
   */
  lemma PassedIffTrulyMet(bound: seq<BoundEntry>, runs: seq<Run>, receipt: Receipt)
    requires Evaluation(bound, runs) == Ok(receipt)
    requires forall i | 0 <= i < |bound| :: RoundsStrictly(bound[i])
    ensures receipt.blocking.None? <==> forall i | 0 <= i < |bound| :: TrulyMet(bound[i], runs)
  {
    var sorted := Sort(CheckBefore, bound);
    SortKeeps(CheckBefore, bound);
    PassedIffEveryBoundMet(bound, runs, receipt);
    BlockingIsLeast(sorted, runs, 0);
    forall i | 0 <= i < |sorted| && (receipt.blocking.Some? ==> Rank(PhaseOf(sorted[i])) <= Rank(receipt.blocking.value))
      ensures Met(sorted[i], runs) <==> TrulyMet(sorted[i], runs)
    {
      SameMembers(sorted, bound, sorted[i]);
      NoPhaseError(sorted, runs, 0, i);
      MetIsTrue(sorted[i], runs);
    }
    if receipt.blocking.None? {
      forall i | 0 <= i < |bound| ensures TrulyMet(bound[i], runs) {
        SameMembers(bound, sorted, bound[i]);
        var k :| 0 <= k < |sorted| && sorted[k] == bound[i];
      }
    } else {
      var k :| 0 <= k < |sorted| && PhaseOf(sorted[k]) == receipt.blocking.value && !Met(sorted[k], runs);
      SameMembers(sorted, bound, sorted[k]);
      var i :| 0 <= i < |bound| && bound[i] == sorted[k];
      assert !TrulyMet(bound[i], runs);
    }
  }

  lemma {:induction false} OutcomesAddUp(checks: seq<Check>)
    ensures CountOutcome(checks, Passed) + CountOutcome(checks, Failed) + CountOutcome(checks, NotRun) == |checks|
  {
    if checks != [] {
      OutcomesAddUp(checks[..|checks| - 1]);
    }
  }

  /** The counts of a receipt add up, and a passed verdict counts no failure and no skipped check. */
  lemma CountsAddUp(bound: seq<BoundEntry>, runs: seq<Run>, receipt: Receipt)
    requires Evaluation(bound, runs) == Ok(receipt)
    ensures receipt.checkCount == |bound| == CountOutcome(receipt.checks, Passed) + receipt.failedCount + receipt.notRunCount
    ensures receipt.blocking.None? <==> receipt.failedCount == 0
    ensures receipt.blocking.None? ==> receipt.notRunCount == 0
  {
    OutcomesAddUp(receipt.checks);
    if |receipt.checks| > 0 {
      ReceiptShape(bound, runs, receipt, 0);
    }
    forall i | 0 <= i < |receipt.checks|
      ensures receipt.checks[i].outcome == Failed ==> receipt.blocking.Some?
      ensures receipt.checks[i].outcome == NotRun ==> receipt.blocking.Some?
    {
      ReceiptShape(bound, runs, receipt, i);
    }
    CountZero(receipt.checks, Failed);
    CountZero(receipt.checks, NotRun);
    if receipt.blocking.Some? {
      SortKeeps(CheckBefore, bound);
      BlockingIsLeast(Sort(CheckBefore, bound), runs, 0);
      ReceiptShape(bound, runs, receipt, 0);
    }
  }

  lemma {:induction false} CountZero(checks: seq<Check>, outcome: Outcome)
    ensures CountOutcome(checks, outcome) == 0 <==> forall i | 0 <= i < |checks| :: checks[i].outcome != outcome
  {
    if checks != [] {
      CountZero(checks[..|checks| - 1], outcome);
    }
  }

  /** The whole result, a refused comparison included, forgets the order of the bound entries. */
  lemma EvaluationIgnoresPolicyOrder(left: seq<BoundEntry>, right: seq<BoundEntry>, runs: seq<Run>)
    requires DistinctKeys(left) && DistinctKeys(right) && multiset(left) == multiset(right)
    ensures Evaluation(left, runs) == Evaluation(right, runs)
  {
    CheckBeforeIsStrictOrder();
    DistinctKeysSeparate(left);
    DistinctKeysSeparate(right);
    SortIgnoresOrder(CheckBefore, left, right);
  }

  function EvaluatePolicy(policy: Policy, registry: Registry, runs: seq<Run>): Result<Receipt> {
    match Binding(policy, registry)
    case Refused(e) => Refused(e)
    case Ok(bound) => Evaluation(bound, runs)
  }

  lemma BoundKeysAreDistinct(policy: Policy, registry: Registry, bound: seq<BoundEntry>)
    requires DistinctEntries(policy.entries) && Binding(policy, registry) == Ok(bound)
    ensures DistinctKeys(bound)
  {
    BindingKeepsEntries(policy, registry, bound);
    assert forall i | 0 <= i < |bound| :: IsBinding(policy.entries[i], registry, bound[i]);
  }

  /**
    Two orders of one policy, its keys unique, are both applied or both refused, and when they are
    applied the whole evaluation, a refused comparison included, is the same.
   */
  lemma PolicyOrderDoesNotMatter(left: Policy, right: Policy, registry: Registry, runs: seq<Run>)
    requires left.registryGeneration == right.registryGeneration
    requires multiset(left.entries) == multiset(right.entries)
    requires DistinctEntries(left.entries) && DistinctEntries(right.entries)
    ensures Binding(left, registry).Ok? <==> Binding(right, registry).Ok?
    ensures Binding(left, registry).Ok? ==> EvaluatePolicy(left, registry, runs) == EvaluatePolicy(right, registry, runs)
  {
    PermutedEntriesBindAlike(left.entries, right.entries, registry);
    PermutedEntriesBindAlike(right.entries, left.entries, registry);
    if Binding(left, registry).Ok? {
      BindingKeepsPermutation(left.entries, right.entries, registry, Binding(left, registry).value, Binding(right, registry).value);
      BoundKeysAreDistinct(left, registry, Binding(left, registry).value);
      BoundKeysAreDistinct(right, registry, Binding(right, registry).value);
      EvaluationIgnoresPolicyOrder(Binding(left, registry).value, Binding(right, registry).value, runs);
    }
  }
}
