/** The evidence ledger: assembly in ordinal order, agreement of facts, and eligibility. */
module EvidenceSet {
  import opened Options
  import opened AttemptPlan
  import opened Sorting

  const MAXIMUM_PLANNED_ATTEMPTS := 4096
  const NO_RECEIPT_STATUS: string := "no_receipt"
  const COMPLETED_STATUS: string := "completed"

  datatype Result<+T> = Ok(value: T) | Failed(rejection: Rejection)

  datatype Facts = Facts(
    profileId: string, workloadFingerprint: string, targetId: string, platformId: string, configuration: string,
    closureFingerprint: string, harnessId: string, metricRegistryGeneration: int, runnerGeneration: int,
    cellFingerprint: string)

  // What a verified receipt states.
  datatype Receipt = Receipt(status: string, facts: Facts)

  /** Retrieval from the store and every gate on the bytes, as one outcome per receipt digest. */
  type Reader = string -> Result<Receipt>

  datatype Entry = Entry(attemptId: string, ordinal: int, repetition: int, status: string, receipt: Option<string>, supersedes: string)

  datatype Ledger = Ledger(compatibility: Facts, repetitionCount: int, attemptCount: int, attempts: seq<Entry>, eligible: seq<string>)

  /** The name of the first fact two receipts disagree on, or nothing. */
  function FirstDisagreement(left: Facts, right: Facts): (name: string)
    ensures name == "" <==> left == right
  {
    if left.profileId != right.profileId then "profileId"
    else if left.workloadFingerprint != right.workloadFingerprint then "workloadFingerprint"
    else if left.targetId != right.targetId then "targetId"
    else if left.platformId != right.platformId then "platformId"
    else if left.configuration != right.configuration then "configuration"
    else if left.closureFingerprint != right.closureFingerprint then "closureFingerprint"
    else if left.harnessId != right.harnessId then "harnessId"
    else if left.metricRegistryGeneration != right.metricRegistryGeneration then "metricRegistryGeneration"
    else if left.runnerGeneration != right.runnerGeneration then "runnerGeneration"
    else if left.cellFingerprint != right.cellFingerprint then "cellFingerprint"
    else ""
  }

  predicate HasReceipt(a: Attempt) {
    a.receipt.Some?
  }

  // ---- what assembly computes, over the attempts in ordinal order

  function StatusOf(a: Attempt, reader: Reader): string {
    if HasReceipt(a) && reader(a.receipt.value).Ok? then reader(a.receipt.value).value.status else NO_RECEIPT_STATUS
  }

  function EntryOf(a: Attempt, reader: Reader): Entry {
    Entry(a.attemptId, a.ordinal, a.repetition, StatusOf(a, reader), a.receipt, a.supersedes)
  }

  /** The facts every receipt agrees on, or the first refusal. */
  function AgreedFacts(ordered: seq<Attempt>, reader: Reader, agreed: Option<Facts>): Result<Option<Facts>> {
    if ordered == [] then Ok(agreed)
    else if !HasReceipt(ordered[0]) then AgreedFacts(ordered[1..], reader, agreed)
    else
      var read := reader(ordered[0].receipt.value);
      if read.Failed? then Failed(read.rejection)
      else if agreed.Some? && FirstDisagreement(agreed.value, read.value.facts) != "" then Failed(DescriptorMismatch)
      else AgreedFacts(ordered[1..], reader, if agreed.Some? then agreed else Some(read.value.facts))
  }

  function Targets(ordered: seq<Attempt>): set<string> {
    set i | 0 <= i < |ordered| && ordered[i].supersedes != "" :: ordered[i].supersedes
  }

  predicate IsEligible(a: Attempt, superseded: set<string>, reader: Reader) {
    StatusOf(a, reader) == COMPLETED_STATUS && a.attemptId !in superseded
  }

  function EligibleOf(ordered: seq<Attempt>, superseded: set<string>, reader: Reader): seq<string> {
    if ordered == [] then []
    else
      var last := ordered[|ordered| - 1];
      EligibleOf(ordered[..|ordered| - 1], superseded, reader) + (if IsEligible(last, superseded, reader) then [last.attemptId] else [])
  }

  function Entries(ordered: seq<Attempt>, reader: Reader): (r: seq<Entry>)
    ensures |r| == |ordered|
  {
    if ordered == [] then []
    else Entries(ordered[..|ordered| - 1], reader) + [EntryOf(ordered[|ordered| - 1], reader)]
  }

  function Assembled(plan: Plan, reader: Reader): Result<Ledger> {
    var ordered := Sort(OrdinalBefore, plan.attempts);
    var facts := AgreedFacts(ordered, reader, None);
    if facts.Failed? then Failed(facts.rejection)
    else if facts.value.None? then Failed(SchemaInvalid)
    else Ok(Ledger(facts.value.value, plan.repetitionCount, plan.attemptCount,
                   Entries(ordered, reader), EligibleOf(ordered, Targets(ordered), reader)))
  }

  lemma UpTo(ordered: seq<Attempt>, reader: Reader, i: nat)
    requires i < |ordered|
    ensures Entries(ordered[..i + 1], reader) == Entries(ordered[..i], reader) + [EntryOf(ordered[i], reader)]
    ensures Targets(ordered[..i + 1]) ==
      Targets(ordered[..i]) + (if ordered[i].supersedes == "" then {} else {ordered[i].supersedes})
  {
    var longer := ordered[..i + 1];
    assert longer[..i] == ordered[..i] && longer[i] == ordered[i];
    forall x | x in Targets(longer)
      ensures x in Targets(ordered[..i]) + (if ordered[i].supersedes == "" then {} else {ordered[i].supersedes})
    {
      var j :| 0 <= j < |longer| && longer[j].supersedes != "" && longer[j].supersedes == x;
      if j < i {
        assert ordered[..i][j] == longer[j];
      }
    }
    forall x | x in Targets(ordered[..i]) ensures x in Targets(longer) {
      var j :| 0 <= j < i && ordered[..i][j].supersedes != "" && ordered[..i][j].supersedes == x;
      assert longer[j] == ordered[..i][j];
    }
  }

  /** The first pass: every receipt is read, its facts compared, its status recorded. */
  method ReadAttempts(ordered: seq<Attempt>, reader: Reader)
    returns (agreed: Result<Option<Facts>>, entries: seq<Entry>, superseded: set<string>)
    ensures agreed == AgreedFacts(ordered, reader, None)
    ensures agreed.Ok? ==> entries == Entries(ordered, reader) && superseded == Targets(ordered)
  {
    var facts: Option<Facts> := None;
    entries, superseded := [], {};
    for i := 0 to |ordered|
      invariant AgreedFacts(ordered, reader, None) == AgreedFacts(ordered[i..], reader, facts)
      invariant entries == Entries(ordered[..i], reader)
      invariant superseded == Targets(ordered[..i])
    {
      var attempt := ordered[i];
      UpTo(ordered, reader, i);
      assert ordered[i..][1..] == ordered[i + 1..];
      var status := NO_RECEIPT_STATUS;
      if HasReceipt(attempt) {
        var read := reader(attempt.receipt.value);
        if read.Failed? {
          return Failed(read.rejection), entries, superseded;
        }
        status := read.value.status;
        if facts.None? {
          facts := Some(read.value.facts);
        } else if FirstDisagreement(facts.value, read.value.facts) != "" {
          return Failed(DescriptorMismatch), entries, superseded;
        }
      }
      if attempt.supersedes != "" {
        superseded := superseded + {attempt.supersedes};
      }
      entries := entries + [Entry(attempt.attemptId, attempt.ordinal, attempt.repetition, status, attempt.receipt, attempt.supersedes)];
    }
    assert ordered[..|ordered|] == ordered && ordered[|ordered|..] == [];
    return Ok(facts), entries, superseded;
  }

  /** The second pass restates the recorded statuses and adds nothing. */
  method EligibleIdentities(entries: seq<Entry>, ghost ordered: seq<Attempt>, superseded: set<string>, ghost reader: Reader)
    returns (eligible: seq<string>)
    requires entries == Entries(ordered, reader)
    ensures eligible == EligibleOf(ordered, superseded, reader)
  {
    eligible := [];
    for i := 0 to |entries|
      invariant eligible == EligibleOf(ordered[..i], superseded, reader)
    {
      assert ordered[..i + 1][..i] == ordered[..i];
      EntriesAt(ordered, reader, i);
      if entries[i].status == COMPLETED_STATUS && entries[i].attemptId !in superseded {
        eligible := eligible + [entries[i].attemptId];
      }
    }
    assert ordered[..|ordered|] == ordered;
  }

  method Assemble(plan: Plan, reader: Reader) returns (r: Result<Ledger>)
    ensures r == Assembled(plan, reader)
  {
    var ordered := Sort(OrdinalBefore, plan.attempts);
    var agreed, entries, superseded := ReadAttempts(ordered, reader);
    if agreed.Failed? {
      return Failed(agreed.rejection);
    }
    if agreed.value.None? {
      return Failed(SchemaInvalid);
    }
    var eligible := EligibleIdentities(entries, ordered, superseded, reader);
    return Ok(Ledger(agreed.value.value, plan.repetitionCount, plan.attemptCount, entries, eligible));
  }

  // ---- what a ledger says

  /** Assembly gives one result, refusals included, for every listing of the same attempts. */
  lemma AssemblyIgnoresListingOrder(left: Plan, right: Plan, reader: Reader)
    requires DistinctOrdinals(left.attempts) && DistinctOrdinals(right.attempts)
    requires multiset(left.attempts) == multiset(right.attempts)
    requires left.repetitionCount == right.repetitionCount && left.attemptCount == right.attemptCount
    ensures Assembled(left, reader) == Assembled(right, reader)
  {
    OrdinalBeforeIsStrictOrder();
    SortIgnoresOrder(OrdinalBefore, left.attempts, right.attempts);
  }

  lemma {:induction false} EntriesAt(ordered: seq<Attempt>, reader: Reader, i: nat)
    requires i < |ordered|
    ensures Entries(ordered, reader)[i] == EntryOf(ordered[i], reader)
  {
    if i < |ordered| - 1 {
      EntriesAt(ordered[..|ordered| - 1], reader, i);
    }
  }

  /** A ledger accounts for every planned attempt: ordinal k stands in place k, from 1 to N. */
  lemma LedgerIsComplete(plan: Plan, reader: Reader, ledger: Ledger)
    requires Accounted(plan) && Assembled(plan, reader) == Ok(ledger)
    ensures |ledger.attempts| == plan.attemptCount
    ensures forall i | 0 <= i < |ledger.attempts| :: ledger.attempts[i].ordinal == i + 1
    ensures forall a | a in plan.attempts :: EntryOf(a, reader) in ledger.attempts
    ensures forall e | e in ledger.attempts :: exists a :: a in plan.attempts && e == EntryOf(a, reader)
  {
    var ordered := Sort(OrdinalBefore, plan.attempts);
    CoverIsContiguous(plan.attempts, plan.attemptCount);
    SortKeeps(OrdinalBefore, plan.attempts);
    forall i | 0 <= i < |ledger.attempts|
      ensures ledger.attempts[i].ordinal == i + 1
      ensures exists a :: a in plan.attempts && ledger.attempts[i] == EntryOf(a, reader)
    {
      EntriesAt(ordered, reader, i);
      SameMembers(ordered, plan.attempts, ordered[i]);
    }
    forall a | a in plan.attempts ensures EntryOf(a, reader) in ledger.attempts {
      SameMembers(plan.attempts, ordered, a);
      var i :| 0 <= i < |ordered| && ordered[i] == a;
      EntriesAt(ordered, reader, i);
    }
  }

  lemma {:induction false} AgreementHolds(ordered: seq<Attempt>, reader: Reader, agreed: Option<Facts>, facts: Facts)
    requires AgreedFacts(ordered, reader, agreed) == Ok(Some(facts))
    ensures agreed.Some? ==> agreed.value == facts
    ensures forall a | a in ordered && HasReceipt(a) :: reader(a.receipt.value).Ok? && reader(a.receipt.value).value.facts == facts
    ensures agreed.None? ==> exists a :: a in ordered && HasReceipt(a)
  {
    if ordered != [] {
      var head := ordered[0];
      if HasReceipt(head) {
        var read := reader(head.receipt.value).value;
        AgreementHolds(ordered[1..], reader, if agreed.Some? then agreed else Some(read.facts), facts);
        assert head in ordered;
      } else {
        AgreementHolds(ordered[1..], reader, agreed, facts);
      }
      forall a | a in ordered && HasReceipt(a)
        ensures reader(a.receipt.value).Ok? && reader(a.receipt.value).value.facts == facts
      {
        assert a == head || a in ordered[1..];
      }
    }
  }

  /** Success means every receipt was read and all of them state the same ten facts. */
  lemma ReceiptsAgree(plan: Plan, reader: Reader, ledger: Ledger)
    requires Assembled(plan, reader) == Ok(ledger)
    ensures forall a | a in plan.attempts && HasReceipt(a) ::
      reader(a.receipt.value).Ok? && reader(a.receipt.value).value.facts == ledger.compatibility
    ensures exists a :: a in plan.attempts && HasReceipt(a)
  {
    var ordered := Sort(OrdinalBefore, plan.attempts);
    SortKeeps(OrdinalBefore, plan.attempts);
    AgreementHolds(ordered, reader, None, ledger.compatibility);
    forall a | a in plan.attempts && HasReceipt(a)
      ensures reader(a.receipt.value).Ok? && reader(a.receipt.value).value.facts == ledger.compatibility
    {
      SameMembers(plan.attempts, ordered, a);
    }
    var a :| a in ordered && HasReceipt(a);
    SameMembers(ordered, plan.attempts, a);
  }

  /** Conversely, readable receipts that agree, at least one of them, always assemble. */
  lemma AgreementAssembles(plan: Plan, reader: Reader, facts: Facts)
    requires forall a | a in plan.attempts && HasReceipt(a) :: reader(a.receipt.value).Ok? && reader(a.receipt.value).value.facts == facts
    requires exists a :: a in plan.attempts && HasReceipt(a)
    ensures Assembled(plan, reader).Ok? && Assembled(plan, reader).value.compatibility == facts
  {
    var ordered := Sort(OrdinalBefore, plan.attempts);
    SortKeeps(OrdinalBefore, plan.attempts);
    forall a | a in ordered && HasReceipt(a) ensures reader(a.receipt.value).Ok? && reader(a.receipt.value).value.facts == facts {
      SameMembers(ordered, plan.attempts, a);
    }
    var a :| a in plan.attempts && HasReceipt(a);
    SameMembers(plan.attempts, ordered, a);
    AgreementSucceeds(ordered, reader, None, facts);
  }

  lemma {:induction false} AgreementSucceeds(ordered: seq<Attempt>, reader: Reader, agreed: Option<Facts>, facts: Facts)
    requires agreed.None? || agreed.value == facts
    requires forall a | a in ordered && HasReceipt(a) :: reader(a.receipt.value).Ok? && reader(a.receipt.value).value.facts == facts
    requires agreed.Some? || exists a :: a in ordered && HasReceipt(a)
    ensures AgreedFacts(ordered, reader, agreed) == Ok(Some(facts))
  {
    if ordered != [] {
      assert ordered[0] in ordered;
      var next := if HasReceipt(ordered[0]) then Some(facts) else agreed;
      if next.None? {
        var a :| a in ordered && HasReceipt(a);
        assert a in ordered[1..];
      }
      AgreementSucceeds(ordered[1..], reader, next, facts);
    }
  }

  lemma {:induction false} EligibleMeans(ordered: seq<Attempt>, superseded: set<string>, reader: Reader, id: string)
    ensures id in EligibleOf(ordered, superseded, reader) <==>
            exists i :: 0 <= i < |ordered| && ordered[i].attemptId == id && IsEligible(ordered[i], superseded, reader)
  {
    if ordered != [] {
      var front, last := ordered[..|ordered| - 1], ordered[|ordered| - 1];
      EligibleMeans(front, superseded, reader, id);
      if i :| 0 <= i < |ordered| && ordered[i].attemptId == id && IsEligible(ordered[i], superseded, reader) {
        if i < |front| {
          assert front[i] == ordered[i];
        }
      }
    }
  }

  /** Eligible is exactly: completed, and not replaced by any planned attempt. */
  lemma EligibleExactly(plan: Plan, reader: Reader, ledger: Ledger, id: string)
    requires Assembled(plan, reader) == Ok(ledger)
    ensures id in ledger.eligible <==> CompletedAs(plan.attempts, reader, id) && !Superseded(plan.attempts, id)
  {
    var ordered := Sort(OrdinalBefore, plan.attempts);
    SortKeeps(OrdinalBefore, plan.attempts);
    EligibleMeans(ordered, Targets(ordered), reader, id);
    assert id in Targets(ordered) <==> id != "" && Superseded(plan.attempts, id) by {
      if id in Targets(ordered) {
        var i :| 0 <= i < |ordered| && ordered[i].supersedes != "" && ordered[i].supersedes == id;
        SameMembers(ordered, plan.attempts, ordered[i]);
      }
      if id != "" && Superseded(plan.attempts, id) {
        var a :| a in plan.attempts && a.supersedes != "" && a.supersedes == id;
        SameMembers(plan.attempts, ordered, a);
        var i :| 0 <= i < |ordered| && ordered[i] == a;
      }
    }
    if id in ledger.eligible {
      var i :| 0 <= i < |ordered| && ordered[i].attemptId == id && IsEligible(ordered[i], Targets(ordered), reader);
      SameMembers(ordered, plan.attempts, ordered[i]);
    }
    if CompletedAs(plan.attempts, reader, id) && !Superseded(plan.attempts, id) {
      var a :| a in plan.attempts && a.attemptId == id && StatusOf(a, reader) == COMPLETED_STATUS;
      SameMembers(plan.attempts, ordered, a);
      var i :| 0 <= i < |ordered| && ordered[i] == a;
    }
  }

  ghost predicate CompletedAs(attempts: seq<Attempt>, reader: Reader, id: string) {
    exists a :: a in attempts && a.attemptId == id && StatusOf(a, reader) == COMPLETED_STATUS
  }

  ghost predicate Superseded(attempts: seq<Attempt>, id: string) {
    exists a :: a in attempts && a.supersedes != "" && a.supersedes == id
  }

  /** No eligible attempt is replaced by any attempt, eligible or not, however many links away. */
  lemma EligibleIsAntichain(plan: Plan, reader: Reader, ledger: Ledger, path: seq<string>, i: nat)
    requires Assembled(plan, reader) == Ok(ledger)
    requires IsWalk(plan.attempts, path) && 0 < i < |path|
    ensures path[i] !in ledger.eligible
  {
    EligibleExactly(plan, reader, ledger, path[i]);
    var replacing := AttemptOf(plan.attempts, path[i - 1]);
    assert replacing in plan.attempts && replacing.supersedes == path[i];
    assert Superseded(plan.attempts, path[i]);
  }

  // ---- the same, said of the planned attempts and their receipts alone

  /** The attempt has a receipt, the receipt can be read, and this is the status it states. */
  ghost predicate States(a: Attempt, reader: Reader, status: string) {
    a.receipt.Some? && reader(a.receipt.value).Ok? && reader(a.receipt.value).value.status == status
  }

  /** The entry gives the attempt as planned, and as its status what the receipt states or that there is none. */
  ghost predicate Records(e: Entry, a: Attempt, reader: Reader) {
    && e.attemptId == a.attemptId && e.ordinal == a.ordinal && e.repetition == a.repetition
    && e.receipt == a.receipt && e.supersedes == a.supersedes
    && if a.receipt.None? then e.status == "no_receipt" else States(a, reader, e.status)
  }

  /** Place k of a ledger records the attempt of ordinal k + 1, and the counts are the plan's. */
  lemma LedgerRecordsTheAttempts(plan: Plan, reader: Reader, ledger: Ledger)
    requires Accounted(plan) && Assembled(plan, reader) == Ok(ledger)
    ensures ledger.repetitionCount == plan.repetitionCount && ledger.attemptCount == plan.attemptCount
    ensures |ledger.attempts| == plan.attemptCount
    ensures forall k | 0 <= k < |ledger.attempts| ::
      exists a :: a in plan.attempts && a.ordinal == k + 1 && Records(ledger.attempts[k], a, reader)
  {
    LedgerIsComplete(plan, reader, ledger);
    ReceiptsAgree(plan, reader, ledger);
    forall k | 0 <= k < |ledger.attempts|
      ensures exists a :: a in plan.attempts && a.ordinal == k + 1 && Records(ledger.attempts[k], a, reader)
    {
      assert ledger.attempts[k] in ledger.attempts;
      var a :| a in plan.attempts && ledger.attempts[k] == EntryOf(a, reader);
      assert Records(ledger.attempts[k], a, reader);
    }
  }

  /** Eligible is exactly: some attempt's receipt states completion, and no planned attempt replaces it. */
  lemma EligibleByReceipts(plan: Plan, reader: Reader, ledger: Ledger, id: string)
    requires Assembled(plan, reader) == Ok(ledger)
    ensures id in ledger.eligible <==>
      && (exists a :: a in plan.attempts && a.attemptId == id && States(a, reader, "completed"))
      && (forall a | a in plan.attempts && a.supersedes != "" :: a.supersedes != id)
  {
    EligibleExactly(plan, reader, ledger, id);
    forall a | a in plan.attempts
      ensures StatusOf(a, reader) == COMPLETED_STATUS <==> States(a, reader, "completed")
    {
      NoReceiptIsNotCompletion(a, reader);
    }
  }

  lemma NoReceiptIsNotCompletion(a: Attempt, reader: Reader)
    ensures StatusOf(a, reader) == "completed" <==> States(a, reader, "completed")
  {
    var none := NO_RECEIPT_STATUS;
    assert none[0] == 'n';
  }

  lemma {:induction false} EligibleStandInOrder(
    ordered: seq<Attempt>, superseded: set<string>, reader: Reader, i: nat, j: nat) returns (p: nat, q: nat)
    requires i < j < |EligibleOf(ordered, superseded, reader)|
    ensures p < q < |ordered|
    ensures ordered[p].attemptId == EligibleOf(ordered, superseded, reader)[i]
    ensures ordered[q].attemptId == EligibleOf(ordered, superseded, reader)[j]
  {
    var front, last := ordered[..|ordered| - 1], ordered[|ordered| - 1];
    var eligible := EligibleOf(front, superseded, reader);
    if j < |eligible| {
      p, q := EligibleStandInOrder(front, superseded, reader, i, j);
    } else {
      EligibleMeans(front, superseded, reader, eligible[i]);
      p :| 0 <= p < |front| && front[p].attemptId == eligible[i] && IsEligible(front[p], superseded, reader);
      q := |front|;
    }
  }

  /** The attempt of the one identity was planned before the attempt of the other. */
  ghost predicate PlannedBefore(attempts: seq<Attempt>, left: string, right: string) {
    exists a, b :: a in attempts && b in attempts && a.attemptId == left && b.attemptId == right && a.ordinal < b.ordinal
  }

  /** The eligible identities stand in ordinal order, each once. */
  lemma EligibleInOrdinalOrder(plan: Plan, reader: Reader, ledger: Ledger, i: nat, j: nat)
    requires Accounted(plan) && Assembled(plan, reader) == Ok(ledger) && i < j < |ledger.eligible|
    ensures ledger.eligible[i] != ledger.eligible[j]
    ensures PlannedBefore(plan.attempts, ledger.eligible[i], ledger.eligible[j])
  {
    var ordered := Sort(OrdinalBefore, plan.attempts);
    CoverIsContiguous(plan.attempts, plan.attemptCount);
    SortKeeps(OrdinalBefore, plan.attempts);
    var p, q := EligibleStandInOrder(ordered, Targets(ordered), reader, i, j);
    SameMembers(ordered, plan.attempts, ordered[p]);
    SameMembers(ordered, plan.attempts, ordered[q]);
  }

  // ---- why assembly is refused

  /** The receipts of the attempts before this ordinal can all be read and state the same facts. */
  ghost predicate AgreeBefore(attempts: seq<Attempt>, reader: Reader, ordinal: int) {
    && (forall a | a in attempts && a.receipt.Some? && a.ordinal < ordinal :: reader(a.receipt.value).Ok?)
    && (forall a, b | a in attempts && b in attempts && a.receipt.Some? && b.receipt.Some? && a.ordinal < ordinal && b.ordinal < ordinal
          :: reader(a.receipt.value).value.facts == reader(b.receipt.value).value.facts)
  }

  /** Some attempt before this ordinal has a receipt that states other facts. */
  ghost predicate ContradictedBefore(attempts: seq<Attempt>, reader: Reader, ordinal: int, facts: Facts) {
    exists b :: b in attempts && b.receipt.Some? && b.ordinal < ordinal
                && reader(b.receipt.value).Ok? && reader(b.receipt.value).value.facts != facts
  }

  /** The first attempt, by ordinal, that stops the assembly, and why. */
  ghost predicate Stops(attempts: seq<Attempt>, reader: Reader, a: Attempt, why: Rejection) {
    && a in attempts && a.receipt.Some? && AgreeBefore(attempts, reader, a.ordinal)
    && match reader(a.receipt.value)
       case Failed(rejection) => why == rejection
       case Ok(receipt) => why == DescriptorMismatch && ContradictedBefore(attempts, reader, a.ordinal, receipt.facts)
  }

  predicate AscendingOrdinals(ordered: seq<Attempt>) {
    forall i, j | 0 <= i < j < |ordered| :: ordered[i].ordinal < ordered[j].ordinal
  }

  /** The first `k` receipts were read and agree, and these are their facts. */
  ghost predicate AgreeFirst(ordered: seq<Attempt>, reader: Reader, k: nat, agreed: Option<Facts>)
    requires k <= |ordered|
  {
    && (forall i | 0 <= i < k && ordered[i].receipt.Some? ::
          var read := reader(ordered[i].receipt.value);
          read.Ok? && agreed == Some(read.value.facts))
    && (agreed.Some? ==> exists i :: 0 <= i < k && ordered[i].receipt.Some?)
  }

  lemma EarlierOrdinals(ordered: seq<Attempt>, k: nat, a: Attempt)
    requires AscendingOrdinals(ordered) && k < |ordered|
    ensures a in ordered && a.ordinal < ordered[k].ordinal <==> a in ordered[..k]
  {
    if a in ordered {
      var i :| 0 <= i < |ordered| && ordered[i] == a;
      if i < k {
        assert ordered[..k][i] == a;
      }
    }
    if a in ordered[..k] {
      var i :| 0 <= i < k && ordered[..k][i] == a;
      assert ordered[i] == a;
    }
  }

  lemma FirstAgree(ordered: seq<Attempt>, reader: Reader, k: nat, agreed: Option<Facts>)
    requires AscendingOrdinals(ordered) && k < |ordered| && AgreeFirst(ordered, reader, k, agreed)
    ensures AgreeBefore(ordered, reader, ordered[k].ordinal)
  {
    forall a | a in ordered && a.receipt.Some? && a.ordinal < ordered[k].ordinal
      ensures reader(a.receipt.value).Ok? && agreed == Some(reader(a.receipt.value).value.facts)
    {
      EarlierOrdinals(ordered, k, a);
    }
  }

  lemma FirstContradict(ordered: seq<Attempt>, reader: Reader, k: nat, agreed: Option<Facts>, facts: Facts)
    requires AscendingOrdinals(ordered) && k < |ordered| && AgreeFirst(ordered, reader, k, agreed)
    ensures ContradictedBefore(ordered, reader, ordered[k].ordinal, facts) <==> agreed.Some? && agreed.value != facts
  {
    if b :| b in ordered && b.receipt.Some? && b.ordinal < ordered[k].ordinal
            && reader(b.receipt.value).Ok? && reader(b.receipt.value).value.facts != facts {
      EarlierOrdinals(ordered, k, b);
    }
    if agreed.Some? && agreed.value != facts {
      var i :| 0 <= i < k && ordered[i].receipt.Some?;
      assert ordered[i] in ordered;
    }
  }

  lemma HeadStops(ordered: seq<Attempt>, reader: Reader, k: nat, agreed: Option<Facts>, why: Rejection)
    requires AscendingOrdinals(ordered) && k < |ordered| && AgreeFirst(ordered, reader, k, agreed)
    ensures Stops(ordered, reader, ordered[k], why) <==>
      && ordered[k].receipt.Some?
      && match reader(ordered[k].receipt.value)
         case Failed(rejection) => why == rejection
         case Ok(receipt) => why == DescriptorMismatch && agreed.Some? && agreed.value != receipt.facts
  {
    FirstAgree(ordered, reader, k, agreed);
    if ordered[k].receipt.Some? && reader(ordered[k].receipt.value).Ok? {
      FirstContradict(ordered, reader, k, agreed, reader(ordered[k].receipt.value).value.facts);
    }
  }

  lemma NothingStoppedBefore(ordered: seq<Attempt>, reader: Reader, k: nat, agreed: Option<Facts>, m: nat, why: Rejection)
    requires AscendingOrdinals(ordered) && m < k <= |ordered| && AgreeFirst(ordered, reader, k, agreed)
    ensures !Stops(ordered, reader, ordered[m], why)
  {
    assert forall a | a in ordered && a.ordinal < ordered[m].ordinal :: exists i :: 0 <= i < m && ordered[i] == a;
  }

  /** At most one attempt stops an assembly, and for one reason. */
  lemma OneStops(ordered: seq<Attempt>, reader: Reader, a: Attempt, b: Attempt, left: Rejection, right: Rejection)
    requires AscendingOrdinals(ordered) && Stops(ordered, reader, a, left) && Stops(ordered, reader, b, right)
    ensures a == b && left == right
  {
    var i :| 0 <= i < |ordered| && ordered[i] == a;
    var j :| 0 <= j < |ordered| && ordered[j] == b;
    assert i < j ==> a.ordinal < b.ordinal;
    assert j < i ==> b.ordinal < a.ordinal;
  }

  ghost predicate SomethingStops(attempts: seq<Attempt>, reader: Reader, why: Rejection) {
    exists a :: Stops(attempts, reader, a, why)
  }

  lemma {:induction false} AgreementStops(ordered: seq<Attempt>, reader: Reader, k: nat, agreed: Option<Facts>, why: Rejection)
    requires AscendingOrdinals(ordered) && k <= |ordered| && AgreeFirst(ordered, reader, k, agreed)
    ensures AgreedFacts(ordered[k..], reader, agreed) == Failed(why) <==> SomethingStops(ordered, reader, why)
    decreases |ordered| - k
  {
    if k == |ordered| {
      forall a ensures !Stops(ordered, reader, a, why) {
        if Stops(ordered, reader, a, why) {
          var m :| 0 <= m < |ordered| && ordered[m] == a;
          NothingStoppedBefore(ordered, reader, k, agreed, m, why);
        }
      }
    } else {
      var head := ordered[k];
      assert ordered[k..][0] == head && ordered[k..][1..] == ordered[k + 1..];
      HeadStops(ordered, reader, k, agreed, why);
      if head.receipt.Some? && (reader(head.receipt.value).Failed? || (agreed.Some? && agreed.value != reader(head.receipt.value).value.facts)) {
        var first := if reader(head.receipt.value).Failed? then reader(head.receipt.value).rejection else DescriptorMismatch;
        HeadStops(ordered, reader, k, agreed, first);
        forall a | Stops(ordered, reader, a, why) ensures why == first {
          OneStops(ordered, reader, head, a, first, why);
        }
      } else {
        var next := if head.receipt.Some? && agreed.None? then Some(reader(head.receipt.value).value.facts) else agreed;
        AgreementStops(ordered, reader, k + 1, next, why);
      }
    }
  }

  lemma SortedByOrdinal(attempts: seq<Attempt>, ordered: seq<Attempt>)
    requires DistinctOrdinals(attempts) && ordered == Sort(OrdinalBefore, attempts)
    ensures AscendingOrdinals(ordered)
    ensures forall a :: a in ordered <==> a in attempts
  {
    OrdinalBeforeIsStrictOrder();
    SortAscends(OrdinalBefore, attempts);
    SortKeeps(OrdinalBefore, attempts);
    assert forall i, j | 0 <= i < j < |ordered| :: OrdinalBefore(ordered[i], ordered[j]);
    forall a ensures a in ordered <==> a in attempts {
      assert a in ordered <==> a in multiset(ordered);
      assert a in attempts <==> a in multiset(attempts);
    }
  }

  /**
    Assembly is refused exactly when no attempt has a receipt, or for the reason of the first attempt,
    by ordinal, whose receipt cannot be read or contradicts an earlier one.
   */
  lemma AssemblyRefusedExactly(plan: Plan, reader: Reader, why: Rejection)
    requires DistinctOrdinals(plan.attempts)
    ensures Assembled(plan, reader) == Failed(why) <==>
      || (why == SchemaInvalid && forall a | a in plan.attempts :: a.receipt.None?)
      || SomethingStops(plan.attempts, reader, why)
  {
    var ordered := Sort(OrdinalBefore, plan.attempts);
    SortedByOrdinal(plan.attempts, ordered);
    assert ordered[0..] == ordered;
    AgreementStops(ordered, reader, 0, None, why);
    SameStops(ordered, plan.attempts, reader, why);
    NoFactsWithoutReceipts(ordered, reader, None);
  }

  lemma SameStops(left: seq<Attempt>, right: seq<Attempt>, reader: Reader, why: Rejection)
    requires forall a :: a in left <==> a in right
    ensures SomethingStops(left, reader, why) <==> SomethingStops(right, reader, why)
  {
    forall a ensures Stops(left, reader, a, why) <==> Stops(right, reader, a, why) {
    }
  }

  lemma {:induction false} NoFactsWithoutReceipts(ordered: seq<Attempt>, reader: Reader, agreed: Option<Facts>)
    ensures AgreedFacts(ordered, reader, agreed) == Ok(None) <==> agreed.None? && forall a | a in ordered :: a.receipt.None?
  {
    if ordered != [] {
      var next := if HasReceipt(ordered[0]) && agreed.None? && reader(ordered[0].receipt.value).Ok?
                  then Some(reader(ordered[0].receipt.value).value.facts) else agreed;
      NoFactsWithoutReceipts(ordered[1..], reader, next);
    }
  }

  // ---- reading the eligible attempts back out of a ledger

  // A ledger's attempt as the evaluator reads it: its identity, and its receipt if it carries one.
  datatype Listed = Listed(attemptId: string, receipt: Option<string>)

  /** In attempt order, each named identity once, each with its receipt; `left` are still unnamed. */
  function Resolve(attempts: seq<Listed>, left: set<string>): Result<seq<(string, string)>> {
    if attempts == [] then
      if left == {} then Ok([]) else Failed(SchemaInvalid)
    else if attempts[0].attemptId !in left then Resolve(attempts[1..], left)
    else if attempts[0].receipt.None? then Failed(SchemaInvalid)
    else
      var rest := Resolve(attempts[1..], left - {attempts[0].attemptId});
      if rest.Failed? then rest else Ok([(attempts[0].attemptId, attempts[0].receipt.value)] + rest.value)
  }

  function Prepend(done: seq<(string, string)>, rest: Result<seq<(string, string)>>): Result<seq<(string, string)>> {
    match rest
    case Ok(more) => Ok(done + more)
    case Failed(e) => Failed(e)
  }

  lemma PrependNothing(rest: Result<seq<(string, string)>>)
    ensures Prepend([], rest) == rest
  {
    if rest.Ok? {
      assert [] + rest.value == rest.value;
    }
  }

  lemma PrependTwice(done: seq<(string, string)>, next: (string, string), rest: Result<seq<(string, string)>>)
    ensures Prepend(done + [next], rest) == Prepend(done, Prepend([next], rest))
  {
    if rest.Ok? {
      assert done + [next] + rest.value == done + ([next] + rest.value);
    }
  }

  predicate NoRepeats(ids: seq<string>) {
    forall i, j | 0 <= i < j < |ids| :: ids[i] != ids[j]
  }

  method ReadEligibleAttempts(attempts: seq<Listed>, eligibleIds: seq<string>) returns (r: Result<seq<(string, string)>>)
    ensures |eligibleIds| > MAXIMUM_PLANNED_ATTEMPTS ==> r == Failed(LimitExceeded)
    ensures |eligibleIds| <= MAXIMUM_PLANNED_ATTEMPTS ==>
      r == if NoRepeats(eligibleIds) then Resolve(attempts, set id | id in eligibleIds) else Failed(SchemaInvalid)
  {
    if |eligibleIds| > MAXIMUM_PLANNED_ATTEMPTS {
      return Failed(LimitExceeded);
    }
    var eligible: set<string> := {};
    for i := 0 to |eligibleIds|
      invariant eligible == set j | 0 <= j < i :: eligibleIds[j]
      invariant forall j, k | 0 <= j < k < i :: eligibleIds[j] != eligibleIds[k]
    {
      if eligibleIds[i] in eligible {
        return Failed(SchemaInvalid);
      }
      eligible := eligible + {eligibleIds[i]};
    }
    assert eligible == set id | id in eligibleIds;
    var resolved: seq<(string, string)> := [];
    ghost var all := eligible;
    assert attempts[0..] == attempts;
    PrependNothing(Resolve(attempts, all));
    for i := 0 to |attempts|
      invariant Resolve(attempts, all) == Prepend(resolved, Resolve(attempts[i..], eligible))
    {
      assert attempts[i..][1..] == attempts[i + 1..];
      if attempts[i].attemptId !in eligible {
        continue;
      }
      eligible := eligible - {attempts[i].attemptId};
      if attempts[i].receipt.None? {
        return Failed(SchemaInvalid);
      }
      PrependTwice(resolved, (attempts[i].attemptId, attempts[i].receipt.value), Resolve(attempts[i + 1..], eligible));
      resolved := resolved + [(attempts[i].attemptId, attempts[i].receipt.value)];
    }
    if eligible != {} {
      return Failed(SchemaInvalid);
    }
    assert resolved + [] == resolved;
    return Ok(resolved);
  }

  ghost predicate Resolved(resolved: seq<(string, string)>, id: string) {
    exists i :: 0 <= i < |resolved| && resolved[i].0 == id
  }

  /** The runs read back are exactly the named identities, each once; how they were listed is gone. */
  lemma {:induction false} ResolvedExactly(attempts: seq<Listed>, left: set<string>, resolved: seq<(string, string)>)
    requires Resolve(attempts, left) == Ok(resolved)
    ensures forall id :: id in left <==> Resolved(resolved, id)
    ensures forall i, j | 0 <= i < j < |resolved| :: resolved[i].0 != resolved[j].0
  {
    if attempts != [] {
      var head := attempts[0];
      if head.attemptId in left {
        var rest := Resolve(attempts[1..], left - {head.attemptId}).value;
        ResolvedExactly(attempts[1..], left - {head.attemptId}, rest);
        forall id ensures Resolved(resolved, id) <==> id == head.attemptId || Resolved(rest, id) {
          ResolvedCons((head.attemptId, head.receipt.value), rest, id);
        }
        forall j | 0 < j < |resolved| ensures resolved[j].0 != head.attemptId {
          assert rest[j - 1] == resolved[j] && Resolved(rest, resolved[j].0);
        }
      } else {
        ResolvedExactly(attempts[1..], left, resolved);
      }
    }
  }

  lemma ResolvedCons(head: (string, string), rest: seq<(string, string)>, id: string)
    ensures Resolved([head] + rest, id) <==> id == head.0 || Resolved(rest, id)
  {
    var longer := [head] + rest;
    assert longer[0] == head;
    if Resolved(rest, id) {
      var i :| 0 <= i < |rest| && rest[i].0 == id;
      assert longer[i + 1].0 == id;
    }
  }

  /** This is the first place that lists the identity. */
  ghost predicate IsFirstListing(attempts: seq<Listed>, id: string, k: int) {
    && 0 <= k < |attempts| && attempts[k].attemptId == id
    && forall j | 0 <= j < k :: attempts[j].attemptId != id
  }

  lemma FirstListingBehind(attempts: seq<Listed>, id: string, k: int)
    requires attempts != [] && attempts[0].attemptId != id
    ensures IsFirstListing(attempts[1..], id, k) <==> IsFirstListing(attempts, id, k + 1) && k >= 0
  {
    if IsFirstListing(attempts[1..], id, k) {
      forall j | 0 <= j < k + 1 ensures attempts[j].attemptId != id {
        assert j > 0 ==> attempts[1..][j - 1] == attempts[j];
      }
    }
    if IsFirstListing(attempts, id, k + 1) && k >= 0 {
      forall j | 0 <= j < k ensures attempts[1..][j].attemptId != id {
        assert attempts[1..][j] == attempts[j + 1];
      }
    }
  }

  /** Each identity read back carries the receipt of its first listing, and they stand in the order of those listings. */
  lemma {:induction false} ResolvedFromListings(attempts: seq<Listed>, left: set<string>, resolved: seq<(string, string)>)
    returns (places: seq<nat>)
    requires Resolve(attempts, left) == Ok(resolved)
    ensures |places| == |resolved| && forall i, j | 0 <= i < j < |places| :: places[i] < places[j]
    ensures forall i | 0 <= i < |resolved| ::
      IsFirstListing(attempts, resolved[i].0, places[i]) && attempts[places[i]].receipt == Some(resolved[i].1)
  {
    if attempts == [] {
      places := [];
    } else {
      var head := attempts[0];
      var others := if head.attemptId in left then left - {head.attemptId} else left;
      var rest := Resolve(attempts[1..], others).value;
      var behind := ResolvedFromListings(attempts[1..], others, rest);
      ResolvedExactly(attempts[1..], others, rest);
      var moved := ListingsBehind(attempts, rest, behind);
      places := if head.attemptId in left then [0] + moved else moved;
    }
  }

  lemma ListingsBehind(attempts: seq<Listed>, rest: seq<(string, string)>, behind: seq<nat>) returns (places: seq<nat>)
    requires attempts != [] && !Resolved(rest, attempts[0].attemptId) && |behind| == |rest|
    requires forall i, j | 0 <= i < j < |behind| :: behind[i] < behind[j]
    requires forall i | 0 <= i < |rest| ::
      IsFirstListing(attempts[1..], rest[i].0, behind[i]) && attempts[1..][behind[i]].receipt == Some(rest[i].1)
    ensures |places| == |rest| && (forall i | 0 <= i < |places| :: places[i] > 0)
    ensures forall i, j | 0 <= i < j < |places| :: places[i] < places[j]
    ensures forall i | 0 <= i < |rest| ::
      IsFirstListing(attempts, rest[i].0, places[i]) && attempts[places[i]].receipt == Some(rest[i].1)
  {
    places := seq(|behind|, i requires 0 <= i < |behind| => behind[i] + 1);
    forall i | 0 <= i < |rest|
      ensures IsFirstListing(attempts, rest[i].0, places[i]) && attempts[places[i]].receipt == Some(rest[i].1)
    {
      assert rest[i].0 != attempts[0].attemptId;
      FirstListingBehind(attempts, rest[i].0, behind[i]);
      assert attempts[places[i]] == attempts[1..][behind[i]];
    }
  }

  /** The attempts list the identity, and its first listing carries a receipt. */
  ghost predicate ListedWithReceipt(attempts: seq<Listed>, id: string) {
    exists k :: IsFirstListing(attempts, id, k) && attempts[k].receipt.Some?
  }

  /** Reading back succeeds exactly when every named identity is listed with a receipt. */
  lemma {:induction false} ResolvesExactly(attempts: seq<Listed>, left: set<string>)
    ensures Resolve(attempts, left).Ok? <==> forall id | id in left :: ListedWithReceipt(attempts, id)
    ensures Resolve(attempts, left).Failed? ==> Resolve(attempts, left).rejection == SchemaInvalid
  {
    if attempts != [] {
      var head := attempts[0];
      forall id | id != head.attemptId
        ensures ListedWithReceipt(attempts[1..], id) <==> ListedWithReceipt(attempts, id)
      {
        ListedBehind(attempts, id);
      }
      assert IsFirstListing(attempts, head.attemptId, 0);
      assert ListedWithReceipt(attempts, head.attemptId) <==> head.receipt.Some?;
      ResolvesExactly(attempts[1..], if head.attemptId in left then left - {head.attemptId} else left);
    }
  }

  lemma ListedBehind(attempts: seq<Listed>, id: string)
    requires attempts != [] && attempts[0].attemptId != id
    ensures ListedWithReceipt(attempts[1..], id) <==> ListedWithReceipt(attempts, id)
  {
    if k :| IsFirstListing(attempts[1..], id, k) && attempts[1..][k].receipt.Some? {
      FirstListingBehind(attempts, id, k);
      assert attempts[k + 1] == attempts[1..][k];
    }
    if k :| IsFirstListing(attempts, id, k) && attempts[k].receipt.Some? {
      FirstListingBehind(attempts, id, k - 1);
      assert attempts[1..][k - 1] == attempts[k];
    }
  }
}
