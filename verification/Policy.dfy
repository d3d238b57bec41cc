/** Metric registry lookup and the binding of a policy to one registry generation. */
module Policy {
  import opened Options
  import opened Permutations
  import opened Rescale
  import opened ScaledComparison

  datatype CheckClass = Completeness | Correctness

  // The members of a registry entry the decisions below depend on.
  datatype Metric = Metric(
    metricId: string, generation: int, stable: bool, budgetClass: string, scaleExponent: int,
    direction: Direction, rounding: Rounding)

  datatype Registry = Registry(generation: int, metrics: seq<Metric>)

  datatype PolicyEntry = PolicyEntry(
    policyKey: string, checkClass: CheckClass, metricId: string, metricGeneration: int,
    comparison: Comparison, bound: Quantity)

  datatype Policy = Policy(registryGeneration: int, entries: seq<PolicyEntry>)

  /** One entry with the metric it binds, and its bound where the metric's direction leaves it. */
  datatype BoundEntry = BoundEntry(entry: PolicyEntry, metric: Metric, bound: Quantity)

  predicate IsTier0Class(budgetClass: string) {
    budgetClass == "hard_ceiling" || budgetClass == "contract_constant"
  }

  predicate Matches(m: Metric, metricId: string, generation: int) {
    m.metricId == metricId && m.generation == generation
  }

  /** Identity is the pair: the first entry declared under it. */
  method FindMetric(registry: Registry, metricId: string, generation: int) returns (found: Option<Metric>)
    ensures found.None? ==> forall i | 0 <= i < |registry.metrics| :: !Matches(registry.metrics[i], metricId, generation)
    ensures found.Some? ==> exists k :: IsFirstMatch(registry.metrics, metricId, generation, k) && found.value == registry.metrics[k]
    ensures found == Lookup(registry.metrics, metricId, generation)
  {
    var i := 0;
    while i < |registry.metrics|
      invariant 0 <= i <= |registry.metrics|
      invariant forall j | 0 <= j < i :: !Matches(registry.metrics[j], metricId, generation)
      invariant Lookup(registry.metrics, metricId, generation) == Lookup(registry.metrics[i..], metricId, generation)
    {
      if Matches(registry.metrics[i], metricId, generation) {
        assert IsFirstMatch(registry.metrics, metricId, generation, i);
        return Some(registry.metrics[i]);
      }
      assert registry.metrics[i..][1..] == registry.metrics[i + 1..];
      i := i + 1;
    }
    return None;
  }

  ghost predicate IsFirstMatch(metrics: seq<Metric>, metricId: string, generation: int, k: int) {
    && 0 <= k < |metrics| && Matches(metrics[k], metricId, generation)
    && forall j | 0 <= j < k :: !Matches(metrics[j], metricId, generation)
  }

  function Lookup(metrics: seq<Metric>, metricId: string, generation: int): (r: Option<Metric>)
    ensures r.Some? ==> Matches(r.value, metricId, generation) && r.value in metrics
  {
    if metrics == [] then None
    else if Matches(metrics[0], metricId, generation) then Some(metrics[0])
    else Lookup(metrics[1..], metricId, generation)
  }

  /** One entry's binding; it does not look at the others. */
  function Bind(entry: PolicyEntry, registry: Registry): Result<BoundEntry> {
    var metric := Lookup(registry.metrics, entry.metricId, entry.metricGeneration);
    if metric.None? || !metric.value.stable || !IsTier0Class(metric.value.budgetClass) then Refused(SchemaInvalid)
    else if metric.value.direction == ObservationToBound then Ok(BoundEntry(entry, metric.value, entry.bound))
    else
      match Moved(entry.bound.value, entry.bound.exponent, metric.value.scaleExponent, metric.value.rounding)
      case Ok(n) => Ok(BoundEntry(entry, metric.value, Quantity(n, metric.value.scaleExponent)))
      case Refused(e) => Refused(e)
  }

  /** Every value an entry carries fits the integer type the tools compute with. */
  predicate Readable(entries: seq<PolicyEntry>) {
    forall i | 0 <= i < |entries| :: IsSafe(entries[i].bound.value)
  }

  ghost predicate IsFirstUnbound(entries: seq<PolicyEntry>, registry: Registry, k: int) {
    && 0 <= k < |entries| && Bind(entries[k], registry).Refused?
    && forall j | 0 <= j < k :: Bind(entries[j], registry).Ok?
  }

  /** All entries bound in order, or the reason of the first that does not bind. */
  function BindEntries(entries: seq<PolicyEntry>, registry: Registry): (r: Result<seq<BoundEntry>>)
    ensures r.Ok? ==> && |r.value| == |entries|
                      && forall i | 0 <= i < |entries| :: Bind(entries[i], registry) == Ok(r.value[i])
    ensures r.Refused? ==> exists k :: IsFirstUnbound(entries, registry, k) && Bind(entries[k], registry) == Refused(r.rejection)
  {
    if entries == [] then Ok([])
    else
      match Bind(entries[0], registry)
      case Refused(e) =>
        assert IsFirstUnbound(entries, registry, 0);
        Refused(e)
      case Ok(b) =>
        var rest := BindEntries(entries[1..], registry);
        assert rest.Refused? ==> forall k | IsFirstUnbound(entries[1..], registry, k) :: IsFirstUnbound(entries, registry, k + 1);
        if rest.Refused? then rest else Ok([b] + rest.value)
  }

  function Binding(policy: Policy, registry: Registry): Result<seq<BoundEntry>> {
    if policy.registryGeneration != registry.generation then Refused(SchemaInvalid)
    else BindEntries(policy.entries, registry)
  }

  /** There is one first entry that does not bind. */
  lemma FirstUnboundDecides(entries: seq<PolicyEntry>, registry: Registry, k: nat)
    requires IsFirstUnbound(entries, registry, k)
    ensures BindEntries(entries, registry) == Refused(Bind(entries[k], registry).rejection)
  {
    var r := BindEntries(entries, registry);
    if r.Refused? {
      var m :| IsFirstUnbound(entries, registry, m) && Bind(entries[m], registry) == Refused(r.rejection);
      assert m == k;
    }
  }

  lemma AllBound(entries: seq<PolicyEntry>, registry: Registry, bound: seq<BoundEntry>)
    requires |bound| == |entries|
    requires forall i | 0 <= i < |entries| :: Bind(entries[i], registry) == Ok(bound[i])
    ensures BindEntries(entries, registry) == Ok(bound)
  {
    var r := BindEntries(entries, registry);
    assert forall k :: !IsFirstUnbound(entries, registry, k);
    forall i | 0 <= i < |entries| ensures bound[i] == r.value[i] {
      assert Ok(bound[i]) == Bind(entries[i], registry) == Ok(r.value[i]);
    }
    assert bound == r.value;
  }

  /** All entries bind, in order, or nothing does and the reason is the first failing entry's. */
  method BindPolicyToRegistry(policy: Policy, registry: Registry) returns (r: Result<seq<BoundEntry>>)
    requires Readable(policy.entries)
    ensures r == Binding(policy, registry)
    ensures r.Ok? <==> && policy.registryGeneration == registry.generation
                       && forall i | 0 <= i < |policy.entries| :: Bind(policy.entries[i], registry).Ok?
    ensures r.Ok? ==> && |r.value| == |policy.entries|
                      && forall i | 0 <= i < |r.value| :: Bind(policy.entries[i], registry) == Ok(r.value[i])
    ensures r.Refused? && policy.registryGeneration != registry.generation ==> r.rejection == SchemaInvalid
    ensures r.Refused? && policy.registryGeneration == registry.generation ==>
      exists k :: IsFirstUnbound(policy.entries, registry, k) && Bind(policy.entries[k], registry) == Refused(r.rejection)
  {
    if policy.registryGeneration != registry.generation {
      return Refused(SchemaInvalid);
    }
    var bound: seq<BoundEntry> := [];
    for i := 0 to |policy.entries|
      invariant |bound| == i
      invariant forall j | 0 <= j < i :: Bind(policy.entries[j], registry) == Ok(bound[j])
    {
      var entry := policy.entries[i];
      if Bind(entry, registry).Refused? {
        FirstUnboundDecides(policy.entries, registry, i);
      }
      var metric := FindMetric(registry, entry.metricId, entry.metricGeneration);
      if metric.None? {
        return Refused(SchemaInvalid);
      }
      if !metric.value.stable {
        return Refused(SchemaInvalid);
      }
      if !IsTier0Class(metric.value.budgetClass) {
        return Refused(SchemaInvalid);
      }
      if metric.value.direction == ObservationToBound {
        bound := bound + [BoundEntry(entry, metric.value, entry.bound)];
        continue;
      }
      var value := RescaleExact(entry.bound.value as int64, entry.bound.exponent, metric.value.scaleExponent,
                                metric.value.rounding);
      if value.Refused? {
        return Refused(value.rejection);
      }
      bound := bound + [BoundEntry(entry, metric.value, Quantity(value.value as int, metric.value.scaleExponent))];
    }
    AllBound(policy.entries, registry, bound);
    return Ok(bound);
  }

  /** The key check of the policy reader. */
  method KeysAreUnique(entries: seq<PolicyEntry>) returns (unique: bool)
    ensures unique <==> DistinctEntries(entries)
  {
    var keys: set<string> := {};
    for i := 0 to |entries|
      invariant keys == set j | 0 <= j < i :: entries[j].policyKey
      invariant forall j, k | 0 <= j < k < i :: entries[j].policyKey != entries[k].policyKey
    {
      if entries[i].policyKey in keys {
        return false;
      }
      keys := keys + {entries[i].policyKey};
    }
    return true;
  }

  predicate DistinctEntries(entries: seq<PolicyEntry>) {
    forall j, k | 0 <= j < k < |entries| :: entries[j].policyKey != entries[k].policyKey
  }

  lemma {:induction false} LookupIsFirst(metrics: seq<Metric>, metricId: string, generation: int, k: int)
    requires IsFirstMatch(metrics, metricId, generation, k)
    ensures Lookup(metrics, metricId, generation) == Some(metrics[k])
  {
    if k > 0 {
      forall j | 0 <= j < k - 1 ensures !Matches(metrics[1..][j], metricId, generation) {
        assert metrics[1..][j] == metrics[j + 1];
      }
      assert metrics[1..][k - 1] == metrics[k];
      LookupIsFirst(metrics[1..], metricId, generation, k - 1);
    }
  }

  lemma {:induction false} FoundIsSomewhereFirst(metrics: seq<Metric>, metricId: string, generation: int)
    requires Lookup(metrics, metricId, generation).Some?
    ensures exists k :: IsFirstMatch(metrics, metricId, generation, k) && metrics[k] == Lookup(metrics, metricId, generation).value
  {
    if Matches(metrics[0], metricId, generation) {
      assert IsFirstMatch(metrics, metricId, generation, 0);
    } else {
      FoundIsSomewhereFirst(metrics[1..], metricId, generation);
      var k :| IsFirstMatch(metrics[1..], metricId, generation, k);
      forall j | 0 <= j < k + 1 ensures !Matches(metrics[j], metricId, generation) {
        assert j > 0 ==> metrics[1..][j - 1] == metrics[j];
      }
      assert metrics[k + 1] == metrics[1..][k];
      assert IsFirstMatch(metrics, metricId, generation, k + 1);
      LookupIsFirst(metrics, metricId, generation, k + 1);
    }
  }

  /** The first metric declared under the entry's identity, at place `k`, can be bound to: stable, and of a hard class. */
  ghost predicate CanBind(entry: PolicyEntry, registry: Registry, k: int) {
    && IsFirstMatch(registry.metrics, entry.metricId, entry.metricGeneration, k)
    && registry.metrics[k].stable
    && (registry.metrics[k].budgetClass == "hard_ceiling" || registry.metrics[k].budgetClass == "contract_constant")
  }

  /** The bound as the entry states it where observations move; at the metric's own scale where bounds move. */
  ghost predicate IsBinding(entry: PolicyEntry, registry: Registry, b: BoundEntry) {
    && b.entry == entry && (exists k :: CanBind(entry, registry, k) && b.metric == registry.metrics[k])
    && match b.metric.direction
       case ObservationToBound => b.bound == entry.bound
       case BoundToObservation =>
         && b.bound.exponent == b.metric.scaleExponent
         && Moved(entry.bound.value, entry.bound.exponent, b.metric.scaleExponent, b.metric.rounding) == Ok(b.bound.value)
  }

  /** The entry does not bind for want of a metric to bind to, or because its bound cannot be moved. */
  ghost predicate IsUnbindable(entry: PolicyEntry, registry: Registry, why: RecordRejection) {
    || (why == SchemaInvalid && forall k :: !CanBind(entry, registry, k))
    || exists k :: && CanBind(entry, registry, k) && registry.metrics[k].direction == BoundToObservation
                   && Moved(entry.bound.value, entry.bound.exponent, registry.metrics[k].scaleExponent, registry.metrics[k].rounding)
                      == Refused(why)
  }

  /** What an entry binds to, or why it does not. */
  lemma EntryBindsExactly(entry: PolicyEntry, registry: Registry)
    ensures match Bind(entry, registry) {
      case Ok(b) => IsBinding(entry, registry, b)
      case Refused(why) => IsUnbindable(entry, registry, why)
    }
  {
    var found := Lookup(registry.metrics, entry.metricId, entry.metricGeneration);
    forall k | CanBind(entry, registry, k) ensures found == Some(registry.metrics[k]) {
      LookupIsFirst(registry.metrics, entry.metricId, entry.metricGeneration, k);
    }
    if found.Some? && found.value.stable && IsTier0Class(found.value.budgetClass) {
      FoundIsSomewhereFirst(registry.metrics, entry.metricId, entry.metricGeneration);
      var k :| IsFirstMatch(registry.metrics, entry.metricId, entry.metricGeneration, k) && registry.metrics[k] == found.value;
      assert CanBind(entry, registry, k);
    }
  }

  /** Binding keeps every entry in its place and moves at most its bound. */
  lemma BindingKeepsEntries(policy: Policy, registry: Registry, bound: seq<BoundEntry>)
    requires Binding(policy, registry) == Ok(bound)
    ensures policy.registryGeneration == registry.generation && |bound| == |policy.entries|
    ensures forall i | 0 <= i < |bound| :: IsBinding(policy.entries[i], registry, bound[i])
  {
    forall i | 0 <= i < |bound| ensures IsBinding(policy.entries[i], registry, bound[i]) {
      assert Bind(policy.entries[i], registry) == Ok(bound[i]);
      EntryBindsExactly(policy.entries[i], registry);
    }
  }

  /** A policy is refused for another generation, or for the reason of its first unbindable entry. */
  lemma BindingRefusedExactly(policy: Policy, registry: Registry, why: RecordRejection)
    requires Binding(policy, registry) == Refused(why)
    ensures if policy.registryGeneration != registry.generation then why == SchemaInvalid
            else exists k :: IsFirstUnbound(policy.entries, registry, k) && IsUnbindable(policy.entries[k], registry, why)
  {
    if policy.registryGeneration == registry.generation {
      var k :| IsFirstUnbound(policy.entries, registry, k) && Bind(policy.entries[k], registry) == Refused(why);
      EntryBindsExactly(policy.entries[k], registry);
    }
  }

  // ---- the order of the entries

  /** Either every order of the entries binds, or none does. */
  lemma PermutedEntriesBindAlike(left: seq<PolicyEntry>, right: seq<PolicyEntry>, registry: Registry)
    requires multiset(left) == multiset(right)
    ensures BindEntries(left, registry).Ok? ==> BindEntries(right, registry).Ok?
  {
    if BindEntries(right, registry).Refused? {
      var k :| IsFirstUnbound(right, registry, k);
      var j := Counterpart(right, left, k);
      assert Bind(left[j], registry).Refused?;
    }
  }

  /** Leaving one entry out leaves out its bound entry. */
  lemma BindWithout(entries: seq<PolicyEntry>, registry: Registry, bound: seq<BoundEntry>, k: nat)
    requires k < |entries| && BindEntries(entries, registry) == Ok(bound)
    ensures Bind(entries[k], registry) == Ok(bound[k])
    ensures BindEntries(Without(entries, k), registry) == Ok(Without(bound, k))
  {
    AllBound(Without(entries, k), registry, Without(bound, k));
  }

  /** Orders of the same entries bind to orders of the same bound entries. */
  lemma {:induction false} BindingKeepsPermutation(
    left: seq<PolicyEntry>, right: seq<PolicyEntry>, registry: Registry, lb: seq<BoundEntry>, rb: seq<BoundEntry>)
    requires multiset(left) == multiset(right)
    requires BindEntries(left, registry) == Ok(lb) && BindEntries(right, registry) == Ok(rb)
    ensures multiset(lb) == multiset(rb)
    decreases |left|
  {
    if left == [] {
      assert |multiset(right)| == |right|;
    } else {
      var k := Counterpart(left, right, 0);
      BindWithout(left, registry, lb, 0);
      BindWithout(right, registry, rb, k);
      WithoutSame(left, 0, right, k);
      BindingKeepsPermutation(Without(left, 0), Without(right, k), registry, Without(lb, 0), Without(rb, k));
      WithoutSame(lb, 0, rb, k);
    }
  }

  /** This order of the entries is refused for this reason. */
  ghost predicate RefusedAs(order: seq<PolicyEntry>, entries: seq<PolicyEntry>, registry: Registry, reason: RecordRejection) {
    multiset(order) == multiset(entries) && BindEntries(order, registry) == Refused(reason)
  }

  /** This entry does not bind, for this reason. */
  ghost predicate FailsAs(entries: seq<PolicyEntry>, k: nat, registry: Registry, reason: RecordRejection) {
    k < |entries| && Bind(entries[k], registry) == Refused(reason)
  }

  lemma RefusalHasACause(order: seq<PolicyEntry>, entries: seq<PolicyEntry>, registry: Registry, reason: RecordRejection)
    returns (k: nat)
    requires RefusedAs(order, entries, registry, reason)
    ensures FailsAs(entries, k, registry, reason)
  {
    var m :| IsFirstUnbound(order, registry, m) && Bind(order[m], registry) == Refused(reason);
    k := Counterpart(order, entries, m);
  }

  lemma CauseComesFirst(entries: seq<PolicyEntry>, k: nat, registry: Registry, reason: RecordRejection)
    requires FailsAs(entries, k, registry, reason)
    ensures RefusedAs(Fronted(entries, k), entries, registry, reason)
  {
    FrontedMembers(entries, k);
    assert IsFirstUnbound(Fronted(entries, k), registry, 0);
    FirstUnboundDecides(Fronted(entries, k), registry, 0);
  }

  /** The reasons the orders of a policy are refused for are exactly the reasons of its failing entries. */
  lemma RefusalsOverAllOrders(entries: seq<PolicyEntry>, registry: Registry, reason: RecordRejection)
    ensures (exists order :: RefusedAs(order, entries, registry, reason))
            <==> exists k: nat :: FailsAs(entries, k, registry, reason)
  {
    if order :| RefusedAs(order, entries, registry, reason) {
      var k := RefusalHasACause(order, entries, registry, reason);
    }
    if k: nat :| FailsAs(entries, k, registry, reason) {
      CauseComesFirst(entries, k, registry, reason);
    }
  }

  /** An undeclared metric beside an overflowing bound: the refusal tells which came first. */
  lemma RefusalDependsOnOrder()
    ensures exists registry, undeclared, overflowing ::
      && BindEntries([undeclared, overflowing], registry) == Refused(SchemaInvalid)
      && BindEntries([overflowing, undeclared], registry) == Refused(LimitExceeded)
  {
    var registry := Registry(1, [Metric("m", 1, true, "hard_ceiling", -18, BoundToObservation, RejectInexact)]);
    var undeclared := PolicyEntry("a", Correctness, "n", 1, AtMost, Quantity(0, 0));
    var overflowing := PolicyEntry("b", Correctness, "m", 1, AtMost, Quantity(MAXIMUM_SAFE_INTEGER, 18));
    var metric := registry.metrics[0];
    assert registry.metrics[1..] == [];
    assert Lookup(registry.metrics, "n", 1) == None;
    assert Lookup(registry.metrics, "m", 1) == Some(metric);
    assert Pow10(36) > 1;
    assert Moved(MAXIMUM_SAFE_INTEGER, 18, -18, RejectInexact) == Refused(LimitExceeded);
    FirstUnboundDecides([undeclared, overflowing], registry, 0);
    FirstUnboundDecides([overflowing, undeclared], registry, 0);
  }
}
