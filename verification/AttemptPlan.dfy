/** The two checks an attempt plan must pass before it can be assembled into a ledger. */
module AttemptPlan {
  import opened Options
  import opened Sorting

  const MAXIMUM_SUPERSEDES_DEPTH := 64

  datatype Rejection = SchemaInvalid | DescriptorMismatch | LimitExceeded

  datatype Status = Accepted | Refused(rejection: Rejection)

  /** A planned attempt, with the digest of its receipt if it has one; an empty `supersedes` replaces nothing. */
  datatype Attempt = Attempt(attemptId: string, ordinal: int, repetition: int, supersedes: string, receipt: Option<string>)

  datatype Plan = Plan(repetitionCount: int, attemptCount: int, attempts: seq<Attempt>)

  predicate DistinctIdentities(attempts: seq<Attempt>) {
    forall i, j | 0 <= i < j < |attempts| :: attempts[i].attemptId != attempts[j].attemptId
  }

  predicate DistinctOrdinals(attempts: seq<Attempt>) {
    forall i, j | 0 <= i < j < |attempts| :: attempts[i].ordinal != attempts[j].ordinal
  }

  predicate HasOrdinal(attempts: seq<Attempt>, o: int) {
    exists i :: 0 <= i < |attempts| && attempts[i].ordinal == o
  }

  predicate HasRepetition(attempts: seq<Attempt>, k: int) {
    exists i :: 0 <= i < |attempts| && attempts[i].repetition == k
  }

  /** Every ordinal of 1..N belongs to exactly one attempt, and N attempts are listed. */
  ghost predicate OrdinalsCover(attempts: seq<Attempt>, n: int) {
    && DistinctOrdinals(attempts) && |attempts| == n
    && (forall i | 0 <= i < |attempts| :: 1 <= attempts[i].ordinal <= n)
    && (forall o | 1 <= o <= n :: HasOrdinal(attempts, o))
  }

  ghost predicate RepetitionsCover(attempts: seq<Attempt>, r: int) {
    && (forall i | 0 <= i < |attempts| :: attempts[i].repetition <= r)
    && (forall k | 1 <= k <= r :: HasRepetition(attempts, k))
  }

  /** Every planned attempt appears once, and nothing of the schedule is missing. */
  ghost predicate Accounted(plan: Plan) {
    && DistinctIdentities(plan.attempts)
    && OrdinalsCover(plan.attempts, plan.attemptCount)
    && RepetitionsCover(plan.attempts, plan.repetitionCount)
  }

  predicate OrdinalBefore(left: Attempt, right: Attempt) {
    left.ordinal < right.ordinal
  }

  lemma OrdinalBeforeIsStrictOrder()
    ensures IsStrictOrder(OrdinalBefore)
  {
  }

  lemma {:induction false} AscendingFromOne(ordered: seq<Attempt>, i: nat)
    requires Ascends(OrdinalBefore, ordered) && i < |ordered|
    requires forall j | 0 <= j < |ordered| :: 1 <= ordered[j].ordinal
    ensures ordered[i].ordinal >= i + 1
  {
    if i > 0 {
      AscendingFromOne(ordered, i - 1);
      assert OrdinalBefore(ordered[i - 1], ordered[i]);
    }
  }

  lemma {:induction false} AscendingToCount(ordered: seq<Attempt>, n: int, i: nat)
    requires Ascends(OrdinalBefore, ordered) && i < |ordered|
    requires forall j | 0 <= j < |ordered| :: ordered[j].ordinal <= n
    ensures ordered[i].ordinal <= n - (|ordered| - 1 - i)
    decreases |ordered| - i
  {
    if i < |ordered| - 1 {
      AscendingToCount(ordered, n, i + 1);
      assert OrdinalBefore(ordered[i], ordered[i + 1]);
    }
  }

  /** The ordinals in ascending order are 1, 2, 3, ... */
  ghost predicate Contiguous(ordered: seq<Attempt>) {
    forall i | 0 <= i < |ordered| :: ordered[i].ordinal == i + 1
  }

  /** N distinct ordinals cover 1..N exactly when, in ascending order, they count from one. */
  lemma CoverIsContiguous(attempts: seq<Attempt>, n: int)
    requires DistinctOrdinals(attempts) && |attempts| == n
    ensures OrdinalsCover(attempts, n) <==> Contiguous(Sort(OrdinalBefore, attempts))
  {
    var ordered := Sort(OrdinalBefore, attempts);
    SortAscends(OrdinalBefore, attempts);
    SortKeeps(OrdinalBefore, attempts);
    if OrdinalsCover(attempts, n) {
      forall j | 0 <= j < |ordered| ensures 1 <= ordered[j].ordinal <= n {
        SameMembers(ordered, attempts, ordered[j]);
      }
      forall i | 0 <= i < |ordered| ensures ordered[i].ordinal == i + 1 {
        AscendingFromOne(ordered, i);
        AscendingToCount(ordered, n, i);
      }
    }
    if Contiguous(ordered) {
      forall i | 0 <= i < |attempts| ensures 1 <= attempts[i].ordinal <= n {
        SameMembers(attempts, ordered, attempts[i]);
      }
      forall o | 1 <= o <= n ensures HasOrdinal(attempts, o) {
        SameMembers(ordered, attempts, ordered[o - 1]);
      }
    }
  }

  /** The walk over the ordinals in ascending order. */
  method OrdinalsAreContiguous(ordered: seq<Attempt>) returns (ok: bool)
    ensures ok <==> Contiguous(ordered)
  {
    var expected := 1;
    for i := 0 to |ordered|
      invariant expected == i + 1
      invariant forall j | 0 <= j < i :: ordered[j].ordinal == j + 1
    {
      if ordered[i].ordinal != expected {
        return false;
      }
      expected := expected + 1;
    }
    return true;
  }

  method CheckScheduleAccounting(plan: Plan) returns (status: Status)
    ensures status.Accepted? <==> Accounted(plan)
    ensures status.Refused? ==> status.rejection == SchemaInvalid
  {
    var attempts := plan.attempts;
    if |attempts| != plan.attemptCount {
      return Refused(SchemaInvalid);
    }
    var identities: set<string>, ordinals: set<int>, repetitions: set<int> := {}, {}, {};
    for i := 0 to |attempts|
      invariant identities == set j | 0 <= j < i :: attempts[j].attemptId
      invariant ordinals == set j | 0 <= j < i :: attempts[j].ordinal
      invariant repetitions == set j | 0 <= j < i :: attempts[j].repetition
      invariant DistinctIdentities(attempts[..i]) && DistinctOrdinals(attempts[..i])
      invariant forall j | 0 <= j < i :: attempts[j].repetition <= plan.repetitionCount
    {
      var attempt := attempts[i];
      if attempt.attemptId in identities {
        return Refused(SchemaInvalid);
      }
      if attempt.ordinal in ordinals {
        return Refused(SchemaInvalid);
      }
      if attempt.repetition > plan.repetitionCount {
        return Refused(SchemaInvalid);
      }
      identities := identities + {attempt.attemptId};
      ordinals := ordinals + {attempt.ordinal};
      repetitions := repetitions + {attempt.repetition};
      assert attempts[..i + 1] == attempts[..i] + [attempt];
    }
    assert attempts[..|attempts|] == attempts;
    var contiguous := OrdinalsAreContiguous(Sort(OrdinalBefore, attempts));
    CoverIsContiguous(attempts, plan.attemptCount);
    if !contiguous {
      return Refused(SchemaInvalid);
    }
    var repetition := 1;
    while repetition <= plan.repetitionCount
      invariant 1 <= repetition && (repetition <= plan.repetitionCount + 1 || repetition == 1)
      invariant forall k | 1 <= k < repetition :: HasRepetition(attempts, k)
    {
      assert repetition in repetitions <==> HasRepetition(attempts, repetition);
      if repetition !in repetitions {
        return Refused(SchemaInvalid);
      }
      repetition := repetition + 1;
    }
    return Accepted;
  }

  // ---- supersedes chains

  predicate Planned(attempts: seq<Attempt>, id: string) {
    exists i :: 0 <= i < |attempts| && attempts[i].attemptId == id
  }

  /** The attempt of that identity. */
  function AttemptOf(attempts: seq<Attempt>, id: string): (a: Attempt)
    requires Planned(attempts, id)
    ensures a in attempts && a.attemptId == id
  {
    if attempts[0].attemptId == id then attempts[0] else AttemptOf(attempts[1..], id)
  }

  /** Following the links from this attempt stays in the plan and stops after exactly `k` of them. */
  predicate EndsAfter(attempts: seq<Attempt>, id: string, k: nat)
    decreases k
  {
    && Planned(attempts, id)
    && var next := AttemptOf(attempts, id).supersedes;
       if k == 0 then next == "" else next != "" && EndsAfter(attempts, next, k - 1)
  }

  ghost predicate EndsWithin(attempts: seq<Attempt>, id: string, limit: nat) {
    exists k: nat :: k <= limit && EndsAfter(attempts, id, k)
  }

  /** Every chain stays inside the plan and terminates within the depth limit. */
  ghost predicate ChainsEnd(attempts: seq<Attempt>) {
    forall i | 0 <= i < |attempts| :: EndsWithin(attempts, attempts[i].attemptId, MAXIMUM_SUPERSEDES_DEPTH)
  }

  lemma {:induction false} LengthIsUnique(attempts: seq<Attempt>, id: string, k: nat, m: nat)
    requires EndsAfter(attempts, id, k) && EndsAfter(attempts, id, m)
    ensures k == m
    decreases k
  {
    if k > 0 && m > 0 {
      LengthIsUnique(attempts, AttemptOf(attempts, id).supersedes, k - 1, m - 1);
    }
  }

  /** The walk so far: `path[0]` is the start, each next one is what the one before supersedes. */
  ghost predicate IsWalk(attempts: seq<Attempt>, path: seq<string>) {
    && path != []
    && (forall i | 0 <= i < |path| :: Planned(attempts, path[i]))
    && (forall i | 1 <= i < |path| :: path[i] != "" && AttemptOf(attempts, path[i - 1]).supersedes == path[i])
  }

  lemma {:induction false} WalkCountsDown(attempts: seq<Attempt>, path: seq<string>, k: nat, i: nat)
    requires IsWalk(attempts, path) && EndsAfter(attempts, path[0], k) && i < |path|
    ensures i <= k && EndsAfter(attempts, path[i], k - i)
  {
    if i > 0 {
      WalkCountsDown(attempts, path, k, i - 1);
      assert AttemptOf(attempts, path[i - 1]).supersedes == path[i];
    }
  }

  lemma {:induction false} WalkCountsUp(attempts: seq<Attempt>, path: seq<string>, k: nat, i: nat)
    requires IsWalk(attempts, path) && i < |path| && EndsAfter(attempts, path[i], k)
    ensures EndsAfter(attempts, path[0], k + i)
    decreases i
  {
    if i > 0 {
      assert AttemptOf(attempts, path[i - 1]).supersedes == path[i];
      assert EndsAfter(attempts, path[i - 1], k + 1);
      WalkCountsUp(attempts, path, k + 1, i - 1);
    }
  }

  /** A walk that returns to a place it has been never ends. */
  lemma RepeatedWalkNeverEnds(attempts: seq<Attempt>, path: seq<string>, i: nat, j: nat, k: nat)
    requires IsWalk(attempts, path) && i < j < |path| && path[i] == path[j]
    ensures !EndsAfter(attempts, path[0], k)
  {
    if EndsAfter(attempts, path[0], k) {
      WalkCountsDown(attempts, path, k, i);
      WalkCountsDown(attempts, path, k, j);
      LengthIsUnique(attempts, path[i], k - i, k - j);
    }
  }

  /** A walk longer than the limit ends beyond it, if at all. */
  lemma LongWalkEndsLate(attempts: seq<Attempt>, path: seq<string>, k: nat)
    requires IsWalk(attempts, path) && EndsAfter(attempts, path[0], k)
    ensures k >= |path| - 1
  {
    WalkCountsDown(attempts, path, k, |path| - 1);
  }

  /** A link that leaves the plan ends nothing. */
  lemma LostWalkNeverEnds(attempts: seq<Attempt>, path: seq<string>, k: nat)
    requires IsWalk(attempts, path)
    requires var next := AttemptOf(attempts, path[|path| - 1]).supersedes; next != "" && !Planned(attempts, next)
    ensures !EndsAfter(attempts, path[0], k)
  {
    if EndsAfter(attempts, path[0], k) {
      WalkCountsDown(attempts, path, k, |path| - 1);
    }
  }

  lemma LostWalkIsRefused(attempts: seq<Attempt>, path: seq<string>)
    requires IsWalk(attempts, path)
    requires var next := AttemptOf(attempts, path[|path| - 1]).supersedes; next != "" && !Planned(attempts, next)
    ensures !EndsWithin(attempts, path[0], MAXIMUM_SUPERSEDES_DEPTH)
  {
    forall k: nat ensures !EndsAfter(attempts, path[0], k) {
      LostWalkNeverEnds(attempts, path, k);
    }
  }

  lemma RepeatedWalkIsRefused(attempts: seq<Attempt>, path: seq<string>, next: string)
    requires IsWalk(attempts, path) && IsWalk(attempts, path + [next]) && next in path
    ensures !EndsWithin(attempts, path[0], MAXIMUM_SUPERSEDES_DEPTH)
  {
    var longer := path + [next];
    var i :| 0 <= i < |path| && path[i] == next;
    forall k: nat ensures !EndsAfter(attempts, longer[0], k) {
      RepeatedWalkNeverEnds(attempts, longer, i, |path|, k);
    }
    assert longer[0] == path[0];
  }

  lemma LongWalkIsRefused(attempts: seq<Attempt>, path: seq<string>)
    requires IsWalk(attempts, path) && |path| > MAXIMUM_SUPERSEDES_DEPTH + 1
    ensures !EndsWithin(attempts, path[0], MAXIMUM_SUPERSEDES_DEPTH)
  {
    forall k: nat | EndsAfter(attempts, path[0], k) ensures k > MAXIMUM_SUPERSEDES_DEPTH {
      LongWalkEndsLate(attempts, path, k);
    }
  }

  predicate NoRepeatsIn(path: seq<string>) {
    forall i, j | 0 <= i < j < |path| :: path[i] != path[j]
  }

  /** More links than the limit can be followed inside the plan without meeting an attempt twice. */
  ghost predicate IsOverlong(attempts: seq<Attempt>, id: string) {
    exists path :: IsWalk(attempts, path) && path[0] == id && NoRepeatsIn(path) && |path| == MAXIMUM_SUPERSEDES_DEPTH + 2
  }

  /** There is one walk of each length from an attempt. */
  lemma {:induction false} WalksAgree(attempts: seq<Attempt>, p: seq<string>, q: seq<string>, i: nat)
    requires IsWalk(attempts, p) && IsWalk(attempts, q) && p[0] == q[0] && i < |p| && i < |q|
    ensures p[i] == q[i]
  {
    if i > 0 {
      WalksAgree(attempts, p, q, i - 1);
      assert AttemptOf(attempts, p[i - 1]).supersedes == p[i] && AttemptOf(attempts, q[i - 1]).supersedes == q[i];
    }
  }

  /** A walk that stops within the limit, leaves the plan or returns to where it was is not overlong. */
  lemma StoppedWalkIsNotOverlong(attempts: seq<Attempt>, path: seq<string>)
    requires IsWalk(attempts, path) && |path| <= MAXIMUM_SUPERSEDES_DEPTH + 1
    requires var next := AttemptOf(attempts, path[|path| - 1]).supersedes; next == "" || next in path || !Planned(attempts, next)
    ensures !IsOverlong(attempts, path[0])
  {
    forall longer | IsWalk(attempts, longer) && longer[0] == path[0] && |longer| == MAXIMUM_SUPERSEDES_DEPTH + 2
      ensures !NoRepeatsIn(longer)
    {
      WalksAgree(attempts, path, longer, |path| - 1);
      var next := longer[|path|];
      assert AttemptOf(attempts, longer[|path| - 1]).supersedes == next;
      assert Planned(attempts, next) && next in path;
      var i :| 0 <= i < |path| && path[i] == next;
      WalksAgree(attempts, path, longer, i);
    }
  }

  method FindAttempt(attempts: seq<Attempt>, id: string) returns (found: bool, attempt: Attempt)
    ensures found <==> Planned(attempts, id)
    ensures found ==> attempt == AttemptOf(attempts, id)
  {
    attempt := Attempt("", 0, 0, "", None);
    var i := 0;
    while i < |attempts|
      invariant 0 <= i <= |attempts|
      invariant forall j | 0 <= j < i :: attempts[j].attemptId != id
      invariant Planned(attempts, id) <==> Planned(attempts[i..], id)
      invariant Planned(attempts, id) ==> AttemptOf(attempts, id) == AttemptOf(attempts[i..], id)
    {
      if attempts[i].attemptId == id {
        assert attempts[i..][0].attemptId == id;
        return true, attempts[i];
      }
      assert attempts[i..][1..] == attempts[i + 1..];
      assert Planned(attempts[i..], id) <==> Planned(attempts[i + 1..], id) by {
        if Planned(attempts[i..], id) {
          var j :| 0 <= j < |attempts[i..]| && attempts[i..][j].attemptId == id;
          assert attempts[i + 1..][j - 1].attemptId == id;
        }
        if Planned(attempts[i + 1..], id) {
          var j :| 0 <= j < |attempts[i + 1..]| && attempts[i + 1..][j].attemptId == id;
          assert attempts[i..][j + 1].attemptId == id;
        }
      }
      i := i + 1;
    }
    return false, attempt;
  }

  /** The walk from one attempt, with the identities it has passed. */
  method WalkChain(attempts: seq<Attempt>, start: Attempt) returns (status: Status)
    requires DistinctIdentities(attempts) && start in attempts
    ensures status.Accepted? <==> EndsWithin(attempts, start.attemptId, MAXIMUM_SUPERSEDES_DEPTH)
    ensures status == Refused(LimitExceeded) <==> IsOverlong(attempts, start.attemptId)
    ensures status.Refused? ==> status.rejection in {SchemaInvalid, LimitExceeded}
  {
    OnlyAttemptOf(attempts, start);
    var seen := {start.attemptId};
    var current := start;
    var depth := 0;
    ghost var path := [start.attemptId];
    while current.supersedes != ""
      invariant current in attempts && depth <= MAXIMUM_SUPERSEDES_DEPTH
      invariant IsWalk(attempts, path) && |path| == depth + 1 && path[0] == start.attemptId
      invariant path[depth] == current.attemptId && AttemptOf(attempts, current.attemptId) == current
      invariant NoRepeatsIn(path) && forall x :: x in seen <==> x in path
      decreases MAXIMUM_SUPERSEDES_DEPTH - depth
    {
      var found, next := FindAttempt(attempts, current.supersedes);
      if !found {
        LostWalkIsRefused(attempts, path);
        StoppedWalkIsNotOverlong(attempts, path);
        return Refused(SchemaInvalid);
      }
      ghost var longer := path + [current.supersedes];
      assert IsWalk(attempts, longer);
      if current.supersedes in seen {
        RepeatedWalkIsRefused(attempts, path, current.supersedes);
        StoppedWalkIsNotOverlong(attempts, path);
        return Refused(SchemaInvalid);
      }
      seen := seen + {current.supersedes};
      depth := depth + 1;
      path := longer;
      if depth > MAXIMUM_SUPERSEDES_DEPTH {
        LongWalkIsRefused(attempts, path);
        assert IsOverlong(attempts, start.attemptId);
        return Refused(LimitExceeded);
      }
      current := next;
    }
    StoppedWalkIsNotOverlong(attempts, path);
    assert EndsAfter(attempts, current.attemptId, 0);
    WalkCountsUp(attempts, path, 0, depth);
    return Accepted;
  }

  lemma {:induction false} OnlyAttemptOf(attempts: seq<Attempt>, a: Attempt)
    requires DistinctIdentities(attempts) && a in attempts
    ensures Planned(attempts, a.attemptId) && AttemptOf(attempts, a.attemptId) == a
  {
    var b := AttemptOf(attempts, a.attemptId);
    var i :| 0 <= i < |attempts| && attempts[i] == a;
    var j :| 0 <= j < |attempts| && attempts[j] == b;
  }

  /** The first listed attempt whose chain does not end as it must. */
  ghost predicate IsFirstUnending(attempts: seq<Attempt>, i: int) {
    && 0 <= i < |attempts| && !EndsWithin(attempts, attempts[i].attemptId, MAXIMUM_SUPERSEDES_DEPTH)
    && forall j | 0 <= j < i :: EndsWithin(attempts, attempts[j].attemptId, MAXIMUM_SUPERSEDES_DEPTH)
  }

  ghost function ChainRejection(attempts: seq<Attempt>, id: string): Rejection {
    if IsOverlong(attempts, id) then LimitExceeded else SchemaInvalid
  }

  method CheckSupersedesChains(plan: Plan) returns (status: Status)
    requires DistinctIdentities(plan.attempts)
    ensures status.Accepted? <==> ChainsEnd(plan.attempts)
    ensures status.Refused? ==> exists i :: IsFirstUnending(plan.attempts, i)
                                            && status.rejection == ChainRejection(plan.attempts, plan.attempts[i].attemptId)
  {
    for i := 0 to |plan.attempts|
      invariant forall j | 0 <= j < i :: EndsWithin(plan.attempts, plan.attempts[j].attemptId, MAXIMUM_SUPERSEDES_DEPTH)
    {
      status := WalkChain(plan.attempts, plan.attempts[i]);
      if status.Refused? {
        assert IsFirstUnending(plan.attempts, i);
        return;
      }
    }
    return Accepted;
  }

  /** A plan passes exactly when it is accounted for and every chain ends; the limit is blamed for overlong chains alone. */
  method CheckPlan(plan: Plan) returns (status: Status)
    ensures status.Accepted? <==> Accounted(plan) && ChainsEnd(plan.attempts)
    ensures !Accounted(plan) ==> status == Refused(SchemaInvalid)
    ensures Accounted(plan) && status.Refused? ==>
      exists i :: IsFirstUnending(plan.attempts, i)
                  && status.rejection == ChainRejection(plan.attempts, plan.attempts[i].attemptId)
  {
    status := CheckScheduleAccounting(plan);
    if status.Refused? {
      return;
    }
    status := CheckSupersedesChains(plan);
  }

  /** In an accepted plan no attempt replaces itself, directly or through others. */
  lemma AcceptedPlansAreAcyclic(attempts: seq<Attempt>, path: seq<string>, i: nat)
    requires ChainsEnd(attempts) && IsWalk(attempts, path) && 0 < i < |path|
    ensures path[0] != path[i]
  {
    assert Planned(attempts, path[0]);
    var j :| 0 <= j < |attempts| && attempts[j].attemptId == path[0];
    assert EndsWithin(attempts, attempts[j].attemptId, MAXIMUM_SUPERSEDES_DEPTH);
    var k: nat :| k <= MAXIMUM_SUPERSEDES_DEPTH && EndsAfter(attempts, path[0], k);
    if path[0] == path[i] {
      RepeatedWalkNeverEnds(attempts, path, 0, i, k);
    }
  }
}
