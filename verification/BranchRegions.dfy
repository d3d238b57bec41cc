/**
  Merging the branch regions of one file: records at one exact source span are one decision, and
  their counts add up to at most the greatest 64-bit count.
 */
module BranchRegions {
  import opened Permutations

  const CEILING: int := 0x7fff_ffff_ffff_ffff

  newtype int64 = x: int | -CEILING - 1 <= x <= CEILING

  datatype Span = Span(line: nat, column: nat, endLine: nat, endColumn: nat)

  datatype Region = Region(span: Span, trueCount: int64, falseCount: int64)

  predicate IsNegative(r: Region) {
    r.trueCount < 0 || r.falseCount < 0
  }

  function Count(r: Region, outcome: bool): int {
    if outcome then r.trueCount as int else r.falseCount as int
  }

  function Capped(n: int): int {
    if n > CEILING then CEILING else n
  }

  // Signed arithmetic that leaves the 64-bit range has no defined result.
  datatype Sum = Sum(value: int64) | Overflow

  /** The sum saturates for every left operand; the comparison itself overflows exactly for a negative right one. */
  method SaturatingAdd(left: int64, right: int64) returns (sum: Sum)
    ensures sum.Overflow? <==> right < 0
    ensures sum.Sum? ==> sum.value as int == Capped(left as int + right as int)
  {
    var room := CEILING - right as int;
    if room > CEILING {
      return Overflow;
    }
    return Sum(if left > room as int64 then CEILING as int64 else left + right);
  }

  /** The place of the first region at this span, or the length when there is none. */
  function IndexOf(list: seq<Region>, span: Span): (i: nat)
    ensures i <= |list| && (i < |list| ==> list[i].span == span)
    ensures forall k | 0 <= k < i :: list[k].span != span
  {
    if list == [] || list[0].span == span then 0
    else
      var i := IndexOf(list[1..], span);
      assert forall k | 0 < k < i + 1 :: list[k] == list[1..][k - 1];
      i + 1
  }

  function Added(left: int64, right: int64): int64
    requires right >= 0
  {
    Capped(left as int + right as int) as int64
  }

  /** A record that meets no region of its span, or has counts that can be added. */
  predicate Mergeable(list: seq<Region>, r: Region) {
    IndexOf(list, r.span) == |list| || !IsNegative(r)
  }

  function Merged(list: seq<Region>, r: Region): seq<Region>
    requires Mergeable(list, r)
  {
    var i := IndexOf(list, r.span);
    if i == |list| then list + [r]
    else list[i := Region(r.span, Added(list[i].trueCount, r.trueCount), Added(list[i].falseCount, r.falseCount))]
  }

  class RegionList {
    var regions: seq<Region>

    constructor ()
      ensures regions == []
    {
      regions := [];
    }

    /** Where an addition overflows there is no new state to speak of, and the model stops at the old one. */
    method MergeRegion(r: Region) returns (summed: bool)
      modifies this
      ensures summed <==> Mergeable(old(regions), r)
      ensures regions == if summed then Merged(old(regions), r) else old(regions)
    {
      var i := 0;
      while i < |regions| && regions[i].span != r.span
        invariant i <= IndexOf(regions, r.span)
        invariant regions == old(regions)
      {
        i := i + 1;
      }
      if i == |regions| {
        regions := regions + [r];
        return true;
      }
      var trueCount := SaturatingAdd(regions[i].trueCount, r.trueCount);
      if trueCount.Overflow? {
        return false;
      }
      var falseCount := SaturatingAdd(regions[i].falseCount, r.falseCount);
      if falseCount.Overflow? {
        return false;
      }
      regions := regions[i := Region(r.span, trueCount.value, falseCount.value)];
      return true;
    }

    /** One file's whole branch list, starting from nothing. */
    method ReadBranches(entries: seq<Region>) returns (summed: bool)
      requires regions == []
      modifies this
      ensures summed <==> Summable(entries)
      ensures summed ==> Tallies(regions, entries) && InRecordOrder(regions, entries)
    {
      for n := 0 to |entries|
        invariant Summable(entries[..n]) && Tallies(regions, entries[..n]) && InRecordOrder(regions, entries[..n])
      {
        assert entries[..n + 1] == entries[..n] + [entries[n]];
        SummableAppend(entries, n);
        MergeableWhenTallied(regions, entries[..n], entries[n]);
        label L:
        summed := MergeRegion(entries[n]);
        if !summed {
          return;
        }
        MergingTallies(old@L(regions), entries[..n], entries[n]);
        MergingKeepsOrder(old@L(regions), entries[..n], entries[n]);
      }
      assert entries[..|entries|] == entries;
      return true;
    }

    /** What the expansions of other files say about this one, a merged list itself, folded into its own list. */
    method FoldExpansions(expansions: seq<Region>) returns (summed: bool)
      requires SpansDiffer(regions) && SpansDiffer(expansions)
      modifies this
      ensures summed <==> Foldable(old(regions), expansions)
      ensures summed ==> Tallies(regions, old(regions) + expansions)
    {
      TallyOfItself(regions);
      ghost var own := regions;
      assert own + expansions[..0] == own;
      for n := 0 to |expansions|
        invariant own == old(regions)
        invariant Foldable(own, expansions[..n]) && Tallies(regions, own + expansions[..n])
      {
        assert own + expansions[..n + 1] == own + expansions[..n] + [expansions[n]];
        FoldableAppend(own, expansions, n);
        MergeableWhenTallied(regions, own + expansions[..n], expansions[n]);
        label L:
        summed := MergeRegion(expansions[n]);
        if !summed {
          return;
        }
        MergingTallies(old@L(regions), own + expansions[..n], expansions[n]);
      }
      assert expansions[..|expansions|] == expansions;
      return true;
    }
  }

  // ---- what the merged list says about the records

  /** The exact sum over the records at this span, however large. */
  function Total(entries: seq<Region>, span: Span, outcome: bool): int
  {
    if entries == [] then 0
    else
      var last := entries[|entries| - 1];
      Total(entries[..|entries| - 1], span, outcome) + if last.span == span then Count(last, outcome) else 0
  }

  ghost predicate Recorded(entries: seq<Region>, span: Span) {
    exists k :: 0 <= k < |entries| && entries[k].span == span
  }

  /** Only the first record of a span may have a negative count: a later one is a right operand. */
  ghost predicate AddsNegative(entries: seq<Region>, k: int) {
    0 <= k < |entries| && IsNegative(entries[k]) && Recorded(entries[..k], entries[k].span)
  }

  ghost predicate Summable(entries: seq<Region>) {
    forall k :: !AddsNegative(entries, k)
  }

  ghost predicate SpansDiffer(list: seq<Region>) {
    forall i, j | 0 <= i < j < |list| :: list[i].span != list[j].span
  }

  ghost predicate CarriesTotals(r: Region, entries: seq<Region>) {
    && Count(r, true) == Capped(Total(entries, r.span, true))
    && Count(r, false) == Capped(Total(entries, r.span, false))
  }

  /** One region for each recorded span, carrying the sum of its records or the ceiling. */
  ghost predicate Tallies(list: seq<Region>, entries: seq<Region>) {
    && SpansDiffer(list)
    && (forall span :: Recorded(list, span) <==> Recorded(entries, span))
    && (forall k | 0 <= k < |list| :: CarriesTotals(list[k], entries))
  }

  /** The regions stand in the order of their spans' first records. */
  ghost predicate InRecordOrder(list: seq<Region>, entries: seq<Region>) {
    forall i, j | 0 <= i < j < |list| :: IndexOf(entries, list[i].span) < IndexOf(entries, list[j].span)
  }

  lemma FirstRecordStays(entries: seq<Region>, r: Region, span: Span)
    ensures Recorded(entries, span) ==> IndexOf(entries + [r], span) == IndexOf(entries, span) < |entries|
    ensures !Recorded(entries, r.span) ==> IndexOf(entries + [r], r.span) == |entries|
  {
    var i, j := IndexOf(entries, span), IndexOf(entries + [r], span);
    assert forall k | 0 <= k < |entries| :: (entries + [r])[k] == entries[k];
    if Recorded(entries, span) {
      var k :| 0 <= k < |entries| && entries[k].span == span;
      assert i <= k && (entries + [r])[i].span == span;
    }
    assert (entries + [r])[|entries|] == r;
  }

  lemma MergingKeepsOrder(list: seq<Region>, entries: seq<Region>, r: Region)
    requires Tallies(list, entries) && InRecordOrder(list, entries) && Mergeable(list, r)
    ensures InRecordOrder(Merged(list, r), entries + [r])
  {
    var merged := Merged(list, r);
    forall i, j | 0 <= i < j < |merged|
      ensures IndexOf(entries + [r], merged[i].span) < IndexOf(entries + [r], merged[j].span)
    {
      assert merged[i].span == list[i].span && Recorded(list, list[i].span);
      FirstRecordStays(entries, r, list[i].span);
      if j < |list| {
        assert merged[j].span == list[j].span && Recorded(list, list[j].span);
        FirstRecordStays(entries, r, list[j].span);
      } else {
        FirstRecordStays(entries, r, r.span);
      }
    }
  }

  lemma {:induction false} UnrecordedSumsToNothing(entries: seq<Region>, span: Span, outcome: bool)
    requires !Recorded(entries, span)
    ensures Total(entries, span, outcome) == 0
  {
    if entries != [] {
      var front := entries[..|entries| - 1];
      assert forall k | 0 <= k < |front| :: front[k] == entries[k] && entries[k].span != span;
      assert entries[|entries| - 1].span != span;
      UnrecordedSumsToNothing(front, span, outcome);
    }
  }

  lemma RecordedAppend(entries: seq<Region>, r: Region, span: Span)
    ensures Recorded(entries + [r], span) <==> Recorded(entries, span) || r.span == span
  {
    var longer := entries + [r];
    if Recorded(entries, span) {
      var k :| 0 <= k < |entries| && entries[k].span == span;
      assert longer[k].span == span;
    }
    assert longer[|entries|] == r;
  }

  lemma TotalAppend(entries: seq<Region>, r: Region, span: Span)
    ensures forall outcome :: Total(entries + [r], span, outcome)
                              == Total(entries, span, outcome) + if r.span == span then Count(r, outcome) else 0
  {
    assert (entries + [r])[..|entries|] == entries;
  }

  lemma SummableAppend(entries: seq<Region>, n: nat)
    requires n < |entries| && Summable(entries[..n])
    ensures Summable(entries[..n + 1]) <==> !AddsNegative(entries, n)
    ensures AddsNegative(entries, n) ==> !Summable(entries)
  {
    var longer := entries[..n + 1];
    forall k ensures AddsNegative(longer, k) <==> AddsNegative(entries[..n], k) || (k == n && AddsNegative(entries, n)) {
      if 0 <= k <= n {
        assert longer[..k] == entries[..k];
        assert k < n ==> entries[..n][..k] == entries[..k];
      }
    }
    assert AddsNegative(longer, n) <==> AddsNegative(entries, n);
  }

  lemma MergeableWhenTallied(list: seq<Region>, entries: seq<Region>, r: Region)
    requires Tallies(list, entries)
    ensures Mergeable(list, r) <==> !(IsNegative(r) && Recorded(entries, r.span))
  {
    var i := IndexOf(list, r.span);
    assert Recorded(list, r.span) <==> i < |list|;
  }

  /** One merge keeps the list the tally of the records so far. */
  lemma MergingTallies(list: seq<Region>, entries: seq<Region>, r: Region)
    requires Tallies(list, entries) && Mergeable(list, r)
    ensures Tallies(Merged(list, r), entries + [r])
  {
    var merged, longer := Merged(list, r), entries + [r];
    var i := IndexOf(list, r.span);
    TotalAppend(entries, r, r.span);
    if i == |list| {
      assert !Recorded(list, r.span);
      UnrecordedSumsToNothing(entries, r.span, true);
      UnrecordedSumsToNothing(entries, r.span, false);
    } else {
      assert CarriesTotals(list[i], entries);
    }
    forall k | 0 <= k < |merged| ensures CarriesTotals(merged[k], longer) {
      TotalAppend(entries, r, merged[k].span);
      if merged[k].span != r.span {
        assert CarriesTotals(list[k], entries);
      }
    }
    forall span ensures Recorded(merged, span) <==> Recorded(longer, span) {
      RecordedAppend(entries, r, span);
      MergedSpans(list, r, span);
    }
  }

  lemma MergedSpans(list: seq<Region>, r: Region, span: Span)
    requires Mergeable(list, r)
    ensures Recorded(Merged(list, r), span) <==> Recorded(list, span) || r.span == span
  {
    var i := IndexOf(list, r.span);
    if i == |list| {
      RecordedAppend(list, r, span);
    } else {
      var merged := Merged(list, r);
      assert forall k | 0 <= k < |list| :: merged[k].span == list[k].span;
      if Recorded(list, span) {
        var k :| 0 <= k < |list| && list[k].span == span;
        assert merged[k].span == span;
      }
      assert merged[i].span == r.span;
    }
  }

  // ---- order, and coverage

  lemma {:induction false} TotalsAddUp(a: seq<Region>, b: seq<Region>, span: Span, outcome: bool)
    ensures Total(a + b, span, outcome) == Total(a, span, outcome) + Total(b, span, outcome)
  {
    if b == [] {
      assert a + b == a;
    } else {
      var front := b[..|b| - 1];
      TotalsAddUp(a, front, span, outcome);
      assert (a + b)[..|a + b| - 1] == a + front;
    }
  }

  /** Taking one record out of the middle takes its counts out of the total. */
  lemma TotalWithout(before: seq<Region>, r: Region, after: seq<Region>, span: Span, outcome: bool)
    ensures Total(before + [r] + after, span, outcome)
            == Total(before + after, span, outcome) + if r.span == span then Count(r, outcome) else 0
  {
    TotalsAddUp(before, after, span, outcome);
    TotalsAddUp(before + [r], after, span, outcome);
    TotalAppend(before, r, span);
  }

  /** Totals do not depend on the order of the records. */
  lemma {:induction false} TotalIgnoresOrder(a: seq<Region>, b: seq<Region>, span: Span, outcome: bool)
    requires multiset(a) == multiset(b)
    ensures Total(a, span, outcome) == Total(b, span, outcome)
    decreases |a|
  {
    if a == [] {
      assert |multiset(b)| == |b|;
    } else {
      var n := |a| - 1;
      var k := Counterpart(a, b, n);
      WithoutSame(a, n, b, k);
      assert Without(a, n) == a[..n];
      assert b == b[..k] + [b[k]] + b[k + 1..];
      TotalWithout(b[..k], b[k], b[k + 1..], span, outcome);
      TotalIgnoresOrder(a[..n], Without(b, k), span, outcome);
    }
  }

  /** Whatever order the export lists the records in, if they add up they come out as the same regions. */
  lemma MergeIgnoresOrder(a: seq<Region>, b: seq<Region>, la: seq<Region>, lb: seq<Region>)
    requires multiset(a) == multiset(b)
    requires Tallies(la, a) && Tallies(lb, b)
    ensures forall r :: r in la <==> r in lb
  {
    SameRegions(a, b, la, lb);
    SameRegions(b, a, lb, la);
  }

  lemma SameRegions(a: seq<Region>, b: seq<Region>, la: seq<Region>, lb: seq<Region>)
    requires multiset(a) == multiset(b)
    requires Tallies(la, a) && Tallies(lb, b)
    ensures forall r | r in la :: r in lb
  {
    forall r | r in la ensures r in lb {
      var k :| 0 <= k < |la| && la[k] == r;
      assert CarriesTotals(la[k], a);
      assert Recorded(la, r.span);
      var n :| 0 <= n < |a| && a[n].span == r.span;
      assert a[n] in multiset(b);
      assert Recorded(b, r.span);
      var m :| 0 <= m < |lb| && lb[m].span == r.span;
      assert CarriesTotals(lb[m], b);
      TotalIgnoresOrder(a, b, r.span, true);
      TotalIgnoresOrder(a, b, r.span, false);
    }
  }

  /** Two records of one span, of which this one has a negative count. */
  ghost predicate SharesItsSpan(entries: seq<Region>, k: nat) {
    && k < |entries| && IsNegative(entries[k])
    && exists i :: 0 <= i < |entries| && i != k && entries[i].span == entries[k].span
  }

  /** The records add up in every order exactly when no negative one shares its span. */
  lemma EveryOrderIsSummable(entries: seq<Region>)
    ensures (forall order: seq<Region> | multiset(order) == multiset(entries) :: Summable(order))
            <==> forall k: nat :: !SharesItsSpan(entries, k)
  {
    forall k: nat | SharesItsSpan(entries, k)
      ensures exists order: seq<Region> :: multiset(order) == multiset(entries) && !Summable(order)
    {
      var i :| 0 <= i < |entries| && i != k && entries[i].span == entries[k].span;
      if i < k {
        assert entries[..k][i] == entries[i];
        assert AddsNegative(entries, k);
        assert !Summable(entries);
      } else {
        var order := entries[k := entries[i]][i := entries[k]];
        assert multiset(order) == multiset(entries);
        assert order[..i][k] == entries[i];
        assert AddsNegative(order, i);
        assert !Summable(order);
      }
    }
    forall order: seq<Region> | multiset(order) == multiset(entries) && !Summable(order)
      ensures exists k: nat :: SharesItsSpan(entries, k)
    {
      var j :| AddsNegative(order, j);
      var i :| 0 <= i < |order[..j]| && order[..j][i].span == order[j].span;
      var m, n := TwoCounterparts(order, entries, i, j);
      assert SharesItsSpan(entries, n);
    }
  }

  /** A count of -1 overflows the comparison as the second record of its span, not as the first. */
  lemma MinusOneOverflowsSecond(span: Span)
    ensures Summable([Region(span, -1, 0), Region(span, 0, 0)])
    ensures !Summable([Region(span, 0, 0), Region(span, -1, 0)])
  {
    var second := [Region(span, 0, 0), Region(span, -1, 0)];
    assert second[..1][0].span == span;
    assert AddsNegative(second, 1);
    assert forall k :: !AddsNegative([Region(span, -1, 0), Region(span, 0, 0)], k);
  }

  // ---- folding one list into another

  /** The region is negative and would be added to one of this list. */
  ghost predicate MeetsNegative(list: seq<Region>, expansions: seq<Region>, k: int) {
    0 <= k < |expansions| && IsNegative(expansions[k]) && Recorded(list, expansions[k].span)
  }

  ghost predicate Foldable(list: seq<Region>, expansions: seq<Region>) {
    forall k :: !MeetsNegative(list, expansions, k)
  }

  lemma FoldableAppend(list: seq<Region>, expansions: seq<Region>, n: nat)
    requires SpansDiffer(expansions) && n < |expansions| && Foldable(list, expansions[..n])
    ensures Foldable(list, expansions[..n + 1]) <==> !(IsNegative(expansions[n]) && Recorded(list + expansions[..n], expansions[n].span))
    ensures IsNegative(expansions[n]) && Recorded(list + expansions[..n], expansions[n].span) ==> !Foldable(list, expansions)
  {
    var longer, span := expansions[..n + 1], expansions[n].span;
    RecordedConcat(list, expansions[..n], span);
    assert !Recorded(expansions[..n], span);
    forall k ensures MeetsNegative(list, longer, k) <==> MeetsNegative(list, expansions[..n], k) || (k == n && MeetsNegative(list, expansions, n)) {
    }
    assert MeetsNegative(list, longer, n) <==> MeetsNegative(list, expansions, n);
  }

  lemma RecordedConcat(a: seq<Region>, b: seq<Region>, span: Span)
    ensures Recorded(a + b, span) <==> Recorded(a, span) || Recorded(b, span)
  {
    if Recorded(a, span) {
      var k :| 0 <= k < |a| && a[k].span == span;
      assert (a + b)[k].span == span;
    }
    if Recorded(b, span) {
      var k :| 0 <= k < |b| && b[k].span == span;
      assert (a + b)[|a| + k].span == span;
    }
  }

  /** Two lists that each add up on their own, and overflow when the one is folded into the other. */
  lemma LoneExpansionOverflows(list: seq<Region>, span: Span)
    requires Recorded(list, span)
    ensures Summable([Region(span, -1, 0)]) && !Foldable(list, [Region(span, -1, 0)])
  {
    assert forall k :: !AddsNegative([Region(span, -1, 0)], k);
    assert MeetsNegative(list, [Region(span, -1, 0)], 0);
  }

  /** Among different spans, the total at a span is the one count there. */
  lemma {:induction false} TotalOfOne(list: seq<Region>, k: nat, outcome: bool)
    requires SpansDiffer(list) && k < |list|
    ensures Total(list, list[k].span, outcome) == Count(list[k], outcome)
    decreases |list|
  {
    var n := |list| - 1;
    var front, last := list[..n], list[n];
    if k < n {
      TotalOfOne(front, k, outcome);
    } else {
      assert !Recorded(front, last.span);
      UnrecordedSumsToNothing(front, last.span, outcome);
    }
  }

  lemma TallyOfItself(list: seq<Region>)
    requires SpansDiffer(list)
    ensures Tallies(list, list)
  {
    forall k | 0 <= k < |list| ensures CarriesTotals(list[k], list) {
      TotalOfOne(list, k, true);
      TotalOfOne(list, k, false);
    }
  }

  /** A tally's total at a span is that of its records, or the ceiling. */
  lemma TotalOfTally(list: seq<Region>, entries: seq<Region>, span: Span, outcome: bool)
    requires Tallies(list, entries)
    ensures Total(list, span, outcome) == Capped(Total(entries, span, outcome))
  {
    if Recorded(list, span) {
      var k :| 0 <= k < |list| && list[k].span == span;
      assert CarriesTotals(list[k], entries);
      TotalOfOne(list, k, outcome);
    } else {
      UnrecordedSumsToNothing(list, span, outcome);
      UnrecordedSumsToNothing(entries, span, outcome);
    }
  }

  /** The file's own records sum below zero, and the expansions' beyond the ceiling they were cut at. */
  ghost predicate CutTooEarly(own: seq<Region>, others: seq<Region>, span: Span, outcome: bool) {
    Total(own, span, outcome) < 0 && Total(others, span, outcome) > CEILING
  }

  lemma TotalIsRecorded(entries: seq<Region>, span: Span, outcome: bool)
    requires Total(entries, span, outcome) != 0
    ensures Recorded(entries, span)
  {
    if !Recorded(entries, span) {
      UnrecordedSumsToNothing(entries, span, outcome);
    }
  }

  /** At one span, cutting the two sums first and then the sum of both is cutting the sum of all. */
  lemma FoldedTotal(
    list: seq<Region>, own: seq<Region>, expansions: seq<Region>, others: seq<Region>, span: Span, outcome: bool)
    requires Tallies(list, own) && Tallies(expansions, others) && Foldable(list, expansions)
    ensures Capped(Total(list + expansions, span, outcome)) == Capped(Total(own + others, span, outcome))
            <==> !CutTooEarly(own, others, span, outcome)
  {
    TotalOfTally(list, own, span, outcome);
    TotalOfTally(expansions, others, span, outcome);
    TotalsAddUp(list, expansions, span, outcome);
    TotalsAddUp(own, others, span, outcome);
    if Total(others, span, outcome) < 0 {
      TotalIsRecorded(expansions, span, outcome);
      var k :| 0 <= k < |expansions| && expansions[k].span == span;
      TotalOfOne(expansions, k, outcome);
      assert !MeetsNegative(list, expansions, k);
      UnrecordedSumsToNothing(list, span, outcome);
    }
  }

  /**
    Folding a merged list into another gives the tally of all the records of both exactly when at no
    span the first sums below zero and the second beyond the ceiling.
   */
  lemma FoldedTallyExactly(
    after: seq<Region>, list: seq<Region>, own: seq<Region>, expansions: seq<Region>, others: seq<Region>)
    requires Tallies(list, own) && Tallies(expansions, others) && Foldable(list, expansions)
    requires Tallies(after, list + expansions)
    ensures Tallies(after, own + others) <==> forall span, outcome :: !CutTooEarly(own, others, span, outcome)
  {
    forall span ensures Recorded(after, span) <==> Recorded(own + others, span) {
      RecordedConcat(list, expansions, span);
      RecordedConcat(own, others, span);
    }
    forall k | 0 <= k < |after| && forall outcome :: !CutTooEarly(own, others, after[k].span, outcome)
      ensures CarriesTotals(after[k], own + others)
    {
      assert CarriesTotals(after[k], list + expansions);
      FoldedTotal(list, own, expansions, others, after[k].span, true);
      FoldedTotal(list, own, expansions, others, after[k].span, false);
    }
    forall span, outcome | CutTooEarly(own, others, span, outcome) ensures !Tallies(after, own + others) {
      TotalIsRecorded(own, span, outcome);
      RecordedConcat(own, others, span);
      var k :| 0 <= k < |after| && after[k].span == span;
      assert CarriesTotals(after[k], list + expansions);
      FoldedTotal(list, own, expansions, others, span, outcome);
      assert !CarriesTotals(after[k], own + others);
    }
  }

  // ---- coverage

  /** Some record at the span took the outcome. */
  ghost predicate Took(entries: seq<Region>, span: Span, outcome: bool) {
    exists k :: 0 <= k < |entries| && entries[k].span == span && Count(entries[k], outcome) > 0
  }

  /** The count of the first record at the span. */
  function FirstCount(entries: seq<Region>, span: Span, outcome: bool): int {
    var i := IndexOf(entries, span);
    if i == |entries| then 0 else Count(entries[i], outcome)
  }

  lemma TookAppend(entries: seq<Region>, r: Region, span: Span, outcome: bool)
    ensures Took(entries + [r], span, outcome) <==> Took(entries, span, outcome) || (r.span == span && Count(r, outcome) > 0)
  {
    var longer := entries + [r];
    if Took(entries, span, outcome) {
      var k :| 0 <= k < |entries| && entries[k].span == span && Count(entries[k], outcome) > 0;
      assert longer[k].span == span && Count(longer[k], outcome) > 0;
    }
    assert longer[|entries|] == r;
  }

  lemma {:induction false} IndexOfAppend(entries: seq<Region>, r: Region, span: Span)
    ensures IndexOf(entries + [r], span)
            == if Recorded(entries, span) || r.span == span then IndexOf(entries, span) else |entries| + 1
  {
    var i, j := IndexOf(entries, span), IndexOf(entries + [r], span);
    assert forall k | 0 <= k < |entries| :: (entries + [r])[k] == entries[k];
    assert (entries + [r])[|entries|] == r;
    assert Recorded(entries, span) <==> i < |entries|;
  }

  /** What the later records of a span add is never negative, and positive when one of them took the outcome. */
  lemma {:induction false} FirstAndLater(entries: seq<Region>, span: Span, outcome: bool)
    requires Summable(entries)
    ensures var first := FirstCount(entries, span, outcome);
            var later := Total(entries, span, outcome) - first;
            later >= 0 && (Took(entries, span, outcome) <==> first > 0 || later > 0)
  {
    if entries != [] {
      var n := |entries| - 1;
      var front, last := entries[..n], entries[n];
      assert entries == front + [last];
      SummableFront(entries, n);
      FirstAndLater(front, span, outcome);
      TookAppend(front, last, span, outcome);
      IndexOfAppend(front, last, span);
      TotalAppend(front, last, span);
      assert !AddsNegative(entries, n);
      if !Recorded(front, span) {
        UnrecordedSumsToNothing(front, span, outcome);
      }
      assert Recorded(front, span) <==> IndexOf(front, span) < |front|;
    }
  }

  lemma SummableFront(entries: seq<Region>, n: nat)
    requires n <= |entries| && Summable(entries)
    ensures Summable(entries[..n])
  {
    forall k ensures !AddsNegative(entries[..n], k) {
      assert !AddsNegative(entries, k);
      if 0 <= k < n {
        assert entries[..n][..k] == entries[..k];
      }
    }
  }

  /**
    A merged outcome reads as covered exactly when some record at the span took it, unless the
    first record's count is negative and outweighs everything added to it.
   */
  lemma MergeNeverUncovers(entries: seq<Region>, list: seq<Region>, r: Region, outcome: bool)
    requires Summable(entries) && Tallies(list, entries) && r in list
    ensures var first := FirstCount(entries, r.span, outcome);
            var later := Total(entries, r.span, outcome) - first;
            (Count(r, outcome) > 0 <==> Took(entries, r.span, outcome)) <==> !(0 < later <= -first)
  {
    var i :| 0 <= i < |list| && list[i] == r;
    assert CarriesTotals(list[i], entries);
    FirstAndLater(entries, r.span, outcome);
  }

  /** So no merge of counts that are tallies uncovers anything. */
  lemma TalliesNeverUncover(entries: seq<Region>, list: seq<Region>, r: Region, outcome: bool)
    requires forall k | 0 <= k < |entries| :: !IsNegative(entries[k])
    requires Tallies(list, entries) && r in list
    ensures Count(r, outcome) > 0 <==> Took(entries, r.span, outcome)
  {
    assert forall k :: !AddsNegative(entries, k);
    MergeNeverUncovers(entries, list, r, outcome);
  }
}
