/**
  Modified condition/decision coverage of one decision: the independence-pair search, and how many
  distinct executed vectors a covered decision must have.
 */
module McdcCoverage {

  datatype ConditionValue = False | True | Absent

  datatype TestVector = TestVector(conditions: seq<ConditionValue>, executed: bool, result: bool)

  datatype Decision = Decision(conditionCount: nat, vectors: seq<TestVector>)

  /** Every vector is as wide as its decision: the reader refuses any other. */
  predicate WellFormed(d: Decision) {
    forall i | 0 <= i < |d.vectors| :: |d.vectors[i].conditions| == d.conditionCount
  }

  predicate Compatible(a: ConditionValue, b: ConditionValue) {
    a == Absent || b == Absent || a == b
  }

  /** Both executed, reaching different outcomes, and differing in this condition alone. */
  predicate IsPair(l: TestVector, r: TestVector, c: nat)
    requires |l.conditions| == |r.conditions|
  {
    && l.executed && r.executed && l.result != r.result
    && c < |l.conditions|
    && l.conditions[c] != Absent && r.conditions[c] != Absent && l.conditions[c] != r.conditions[c]
    && forall k | 0 <= k < |l.conditions| && k != c :: Compatible(l.conditions[k], r.conditions[k])
  }

  /** The condition has an independence pair, wherever its two vectors are listed. */
  ghost predicate Paired(d: Decision, c: nat)
    requires WellFormed(d)
  {
    exists i, j :: 0 <= i < |d.vectors| && 0 <= j < |d.vectors| && IsPair(d.vectors[i], d.vectors[j], c)
  }

  /** The definition of MC/DC: the decision has conditions and each one is paired. */
  ghost predicate Covered(d: Decision)
    requires WellFormed(d)
  {
    d.conditionCount > 0 && forall c | 0 <= c < d.conditionCount :: Paired(d, c)
  }

  lemma PairsAreSymmetric(l: TestVector, r: TestVector, c: nat)
    requires |l.conditions| == |r.conditions|
    ensures IsPair(l, r, c) <==> IsPair(r, l, c)
  {
    if IsPair(l, r, c) {
      forall k | 0 <= k < |r.conditions| && k != c ensures Compatible(r.conditions[k], l.conditions[k]) {
        assert Compatible(l.conditions[k], r.conditions[k]);
      }
    }
    if IsPair(r, l, c) {
      forall k | 0 <= k < |r.conditions| && k != c ensures Compatible(l.conditions[k], r.conditions[k]) {
        assert Compatible(r.conditions[k], l.conditions[k]);
      }
    }
  }

  lemma PairInListingOrder(d: Decision, c: nat)
    requires WellFormed(d) && Paired(d, c)
    ensures exists i, j :: 0 <= i < j < |d.vectors| && IsPair(d.vectors[i], d.vectors[j], c)
  {
    var i, j :| 0 <= i < |d.vectors| && 0 <= j < |d.vectors| && IsPair(d.vectors[i], d.vectors[j], c);
    PairsAreSymmetric(d.vectors[i], d.vectors[j], c);
    assert if i < j then IsPair(d.vectors[i], d.vectors[j], c) else IsPair(d.vectors[j], d.vectors[i], c);
  }

  method OthersAgree(l: TestVector, r: TestVector, c: nat) returns (agree: bool)
    requires |l.conditions| == |r.conditions|
    ensures agree <==> forall k | 0 <= k < |l.conditions| && k != c :: Compatible(l.conditions[k], r.conditions[k])
  {
    agree := true;
    var other := 0;
    while other < |l.conditions| && agree
      invariant 0 <= other <= |l.conditions|
      invariant agree <==> forall k | 0 <= k < other && k != c :: Compatible(l.conditions[k], r.conditions[k])
    {
      if other != c {
        agree := l.conditions[other] == Absent || r.conditions[other] == Absent || l.conditions[other] == r.conditions[other];
      }
      other := other + 1;
    }
  }

  /** The search for one condition's pair, among every two vectors in listing order. */
  method HasPair(d: Decision, c: nat) returns (paired: bool)
    requires WellFormed(d) && c < d.conditionCount
    ensures paired <==> Paired(d, c)
  {
    paired := false;
    var left := 0;
    while left < |d.vectors| && !paired
      invariant 0 <= left <= |d.vectors|
      invariant paired ==> Paired(d, c)
      invariant !paired ==> forall i, j | 0 <= i < left && i < j < |d.vectors| :: !IsPair(d.vectors[i], d.vectors[j], c)
    {
      var right := left + 1;
      while right < |d.vectors| && !paired
        invariant left + 1 <= right <= |d.vectors|
        invariant paired ==> Paired(d, c)
        invariant !paired ==> forall j | left < j < right :: !IsPair(d.vectors[left], d.vectors[j], c)
      {
        var l, r := d.vectors[left], d.vectors[right];
        right := right + 1;
        if !l.executed || !r.executed || l.result == r.result {
          continue;
        }
        if l.conditions[c] == Absent || r.conditions[c] == Absent || l.conditions[c] == r.conditions[c] {
          continue;
        }
        paired := OthersAgree(l, r, c);
        assert paired <==> IsPair(d.vectors[left], d.vectors[right - 1], c);
      }
      left := left + 1;
    }
    if Paired(d, c) {
      PairInListingOrder(d, c);
    }
  }

  method DecisionIsIndependentlyCovered(d: Decision) returns (covered: bool)
    requires WellFormed(d)
    ensures covered <==> Covered(d)
  {
    if d.conditionCount == 0 {
      return false;
    }
    for c := 0 to d.conditionCount
      invariant forall k | 0 <= k < c :: Paired(d, k)
    {
      var paired := HasPair(d, c);
      if !paired {
        return false;
      }
    }
    return true;
  }

  /** More vectors never uncover a decision, and their order does not matter. */
  lemma CoverageIsMonotone(d: Decision, more: Decision)
    requires WellFormed(d) && WellFormed(more) && more.conditionCount == d.conditionCount
    requires forall v | v in d.vectors :: v in more.vectors
    requires Covered(d)
    ensures Covered(more)
  {
    forall c | 0 <= c < more.conditionCount ensures Paired(more, c) {
      assert Paired(d, c);
      var i, j :| 0 <= i < |d.vectors| && 0 <= j < |d.vectors| && IsPair(d.vectors[i], d.vectors[j], c);
      assert d.vectors[i] in more.vectors && d.vectors[j] in more.vectors;
      var i', j' :| 0 <= i' < |more.vectors| && 0 <= j' < |more.vectors|
                    && more.vectors[i'] == d.vectors[i] && more.vectors[j'] == d.vectors[j];
      assert IsPair(more.vectors[i'], more.vectors[j'], c);
    }
  }

  lemma CoverageIgnoresOrder(d: Decision, e: Decision)
    requires WellFormed(d) && WellFormed(e) && d.conditionCount == e.conditionCount
    requires multiset(d.vectors) == multiset(e.vectors)
    ensures Covered(d) <==> Covered(e)
  {
    forall v | v in d.vectors ensures v in e.vectors { assert v in multiset(d.vectors); }
    forall v | v in e.vectors ensures v in d.vectors { assert v in multiset(e.vectors); }
    if Covered(d) { CoverageIsMonotone(d, e); }
    if Covered(e) { CoverageIsMonotone(e, d); }
  }

  // ---- the n + 1 lower bound

  type Row = seq<ConditionValue>

  predicate Full(row: Row, n: nat) {
    |row| == n && forall k | 0 <= k < n :: row[k] != Absent
  }

  function Flipped(row: Row, c: nat): Row
    requires c < |row|
  {
    row[c := if row[c] == True then False else True]
  }

  /** Forgetting one condition. */
  function Merged(rows: set<Row>, c: nat): set<Row>
    requires forall r | r in rows :: c < |r|
  {
    set r | r in rows :: r[c := False]
  }

  lemma Inhabitant<T>(s: set<T>) returns (x: T)
    requires s != {}
    ensures x in s
  {
    x :| x in s;
  }

  lemma {:induction false} MergingNeverGrows(rows: set<Row>, c: nat)
    requires forall r | r in rows :: c < |r|
    ensures |Merged(rows, c)| <= |rows|
  {
    if rows == {} {
      assert Merged(rows, c) == {};
    } else {
      var r := Inhabitant(rows);
      MergingNeverGrows(rows - {r}, c);
      forall x | x in Merged(rows, c) ensures x in Merged(rows - {r}, c) + {r[c := False]} {
        var s :| s in rows && s[c := False] == x;
        assert s == r || s in rows - {r};
      }
      assert Merged(rows, c) == Merged(rows - {r}, c) + {r[c := False]};
    }
  }

  /** Two rows that differ in the forgotten condition become one. */
  lemma MergingShrinks(rows: set<Row>, c: nat, row: Row)
    requires forall r | r in rows :: c < |r|
    requires row in rows && row[c] != Absent && Flipped(row, c) in rows
    ensures |Merged(rows, c)| <= |rows| - 1
  {
    var twin := Flipped(row, c);
    assert twin[c] != row[c];
    assert twin[c := False] == row[c := False];
    var fewer := rows - {row};
    forall x | x in Merged(rows, c) ensures x in Merged(fewer, c) {
      var r :| r in rows && r[c := False] == x;
      var s := if r == row then twin else r;
      assert s in fewer && s[c := False] == x;
    }
    assert Merged(rows, c) == Merged(fewer, c);
    MergingNeverGrows(fewer, c);
  }

  ghost predicate HasEdge(rows: set<Row>, c: nat) {
    exists r :: r in rows && c < |r| && Flipped(r, c) in rows
  }

  /** Rows joined by an edge in each of the first `m` directions are at least m + 1. */
  lemma {:induction false} EdgesNeedRows(rows: set<Row>, m: nat, n: nat)
    requires rows != {} && m <= n && forall r | r in rows :: Full(r, n)
    requires forall c: nat | c < m :: HasEdge(rows, c)
    ensures |rows| >= m + 1
    decreases m
  {
    if m == 0 {
      assert |rows| != 0;
    } else {
      var c := m - 1;
      assert HasEdge(rows, c);
      var row: Row :| row in rows && c < |row| && Flipped(row, c) in rows;
      var merged := Merged(rows, c);
      assert row[c := False] in merged;
      MergingShrinks(rows, c, row);
      forall k: nat | k < m - 1 ensures HasEdge(merged, k) {
        EdgeSurvives(rows, c, k);
      }
      EdgesNeedRows(merged, m - 1, n);
    }
  }

  lemma EdgeSurvives(rows: set<Row>, c: nat, k: nat)
    requires forall r | r in rows :: c < |r|
    requires k != c && HasEdge(rows, k)
    ensures HasEdge(Merged(rows, c), k)
  {
    var r :| r in rows && k < |r| && Flipped(r, k) in rows;
    var m := r[c := False];
    assert m in Merged(rows, c) && Flipped(r, k)[c := False] in Merged(rows, c);
    assert Flipped(m, k) == Flipped(r, k)[c := False];
  }

  function ExecutedRows(d: Decision): set<Row> {
    set v | v in d.vectors && v.executed :: v.conditions
  }

  /** Without don't-cares a pair of vectors is an edge between two rows. */
  lemma PairIsEdge(d: Decision, c: nat)
    requires WellFormed(d) && Paired(d, c)
    requires forall v | v in d.vectors && v.executed :: Full(v.conditions, d.conditionCount)
    ensures HasEdge(ExecutedRows(d), c)
  {
    var i, j :| 0 <= i < |d.vectors| && 0 <= j < |d.vectors| && IsPair(d.vectors[i], d.vectors[j], c);
    assert d.vectors[i] in d.vectors && d.vectors[j] in d.vectors;
    var l, r := d.vectors[i].conditions, d.vectors[j].conditions;
    assert l in ExecutedRows(d) && r in ExecutedRows(d);
    forall k | 0 <= k < |r| ensures r[k] == Flipped(l, c)[k] {
      if k != c { assert Compatible(l[k], r[k]); }
    }
    assert r == Flipped(l, c);
  }

  /**
    The MC/DC lower bound: without don't-cares, a covered decision of n conditions has at least
    n + 1 distinct executed condition vectors.
   */
  lemma CoveredNeedsRows(d: Decision)
    requires WellFormed(d) && Covered(d)
    requires forall v | v in d.vectors && v.executed :: Full(v.conditions, d.conditionCount)
    ensures |ExecutedRows(d)| >= d.conditionCount + 1
  {
    var rows := ExecutedRows(d);
    forall c: nat | c < d.conditionCount ensures HasEdge(rows, c) {
      assert Paired(d, c);
      PairIsEdge(d, c);
    }
    assert HasEdge(rows, 0);
    EdgesNeedRows(rows, d.conditionCount, d.conditionCount);
  }

  // ---- with don't-cares

  function Reaching(d: Decision, outcome: bool): set<TestVector> {
    set v | v in d.vectors && v.executed && v.result == outcome
  }

  datatype VectorPair = VectorPair(passing: TestVector, failing: TestVector)

  function Product(a: set<TestVector>, b: set<TestVector>): set<VectorPair> {
    set x, y | x in a && y in b :: VectorPair(x, y)
  }

  lemma {:induction false} PairsWithOne(x: TestVector, b: set<TestVector>)
    ensures |Product({x}, b)| == |b|
  {
    if b == {} {
      assert Product({x}, b) == {};
    } else {
      var y :| y in b;
      PairsWithOne(x, b - {y});
      assert Product({x}, b) == Product({x}, b - {y}) + {VectorPair(x, y)};
    }
  }

  lemma {:induction false} ProductSize(a: set<TestVector>, b: set<TestVector>)
    ensures |Product(a, b)| == |a| * |b|
  {
    if a == {} {
      assert Product(a, b) == {};
    } else {
      var x :| x in a;
      ProductSize(a - {x}, b);
      PairsWithOne(x, b);
      assert Product(a, b) == Product(a - {x}, b) + Product({x}, b);
      assert Product(a - {x}, b) !! Product({x}, b);
      assert |a| * |b| == (|a| - 1) * |b| + |b|;
    }
  }

  /** One pair of vectors serves one condition. */
  lemma PairServesOneCondition(l: TestVector, r: TestVector, c: nat, k: nat)
    requires |l.conditions| == |r.conditions| && IsPair(l, r, c) && c != k
    ensures !IsPair(l, r, k)
  {
    assert k < |l.conditions| ==> Compatible(l.conditions[k], r.conditions[k]);
  }

  lemma SubsetIsSmaller<T>(a: set<T>, b: set<T>)
    requires a <= b
    ensures |a| <= |b|
  {
    assert b == a + (b - a);
  }

  /** A passing and a failing vector of the decision that pair for this condition. */
  ghost predicate ServesBy(d: Decision, p: VectorPair, c: nat) {
    && p.passing in Reaching(d, true) && p.failing in Reaching(d, false)
    && |p.passing.conditions| == |p.failing.conditions| && IsPair(p.passing, p.failing, c)
  }

  lemma ServingPair(d: Decision, c: nat) returns (p: VectorPair)
    requires WellFormed(d) && Paired(d, c)
    ensures ServesBy(d, p, c)
  {
    var i, j :| 0 <= i < |d.vectors| && 0 <= j < |d.vectors| && IsPair(d.vectors[i], d.vectors[j], c);
    assert d.vectors[i] in d.vectors && d.vectors[j] in d.vectors;
    PairsAreSymmetric(d.vectors[i], d.vectors[j], c);
    p := if d.vectors[i].result then VectorPair(d.vectors[i], d.vectors[j])
         else VectorPair(d.vectors[j], d.vectors[i]);
  }

  /** Serves one of the first `n` conditions. */
  ghost predicate ServesBelow(d: Decision, p: VectorPair, n: nat) {
    exists c: nat :: c < n && ServesBy(d, p, c)
  }

  /** For the first `n` conditions, as many distinct pairs of a passing and a failing vector. */
  lemma {:induction false} DistinctPairs(d: Decision, n: nat) returns (pairs: set<VectorPair>)
    requires WellFormed(d) && n <= d.conditionCount && forall c: nat | c < n :: Paired(d, c)
    ensures |pairs| == n && forall p | p in pairs :: ServesBelow(d, p, n)
  {
    if n == 0 {
      pairs := {};
    } else {
      var fewer := DistinctPairs(d, n - 1);
      var p := ServingPair(d, n - 1);
      forall q | q in fewer ensures q != p && ServesBelow(d, q, n) {
        assert ServesBelow(d, q, n - 1);
        var c: nat :| c < n - 1 && ServesBy(d, q, c);
        PairServesOneCondition(q.passing, q.failing, c, n - 1);
      }
      pairs := fewer + {p};
    }
  }

  /**
    Whatever the don't-cares, a covered decision has no more conditions than the product of its
    distinct executed vectors of either outcome.
   */
  lemma CoveredNeedsBothOutcomes(d: Decision)
    requires WellFormed(d) && Covered(d)
    ensures d.conditionCount <= |Reaching(d, true)| * |Reaching(d, false)|
  {
    forall c: nat | c < d.conditionCount ensures Paired(d, c) {}
    var pairs := DistinctPairs(d, d.conditionCount);
    forall p | p in pairs ensures p in Product(Reaching(d, true), Reaching(d, false)) {
      assert ServesBelow(d, p, d.conditionCount);
    }
    SubsetIsSmaller(pairs, Product(Reaching(d, true), Reaching(d, false)));
    ProductSize(Reaching(d, true), Reaching(d, false));
  }

  /** Four conditions covered by four vectors: don't-cares defeat the n + 1 bound and meet the product bound. */
  const RING := Decision(4, [
    TestVector([True, Absent, Absent, True], true, true),
    TestVector([False, True, Absent, Absent], true, false),
    TestVector([Absent, False, True, Absent], true, true),
    TestVector([Absent, Absent, False, False], true, false)])

  lemma RingPair(c: nat)
    requires c < 4
    ensures WellFormed(RING) && Paired(RING, c)
  {
    var i, j := c, if c == 3 then 0 else c + 1;
    var l, r := RING.vectors[i], RING.vectors[j];
    forall k | 0 <= k < 4 && k != c ensures Compatible(l.conditions[k], r.conditions[k]) {}
    assert IsPair(RING.vectors[i], RING.vectors[j], c);
  }

  lemma DontCaresDefeatTheRowBound()
    ensures WellFormed(RING) && Covered(RING)
    ensures |ExecutedRows(RING)| < RING.conditionCount + 1
  {
    forall c | 0 <= c < RING.conditionCount ensures Paired(RING, c) { RingPair(c); }
    var v := RING.vectors;
    var four := {v[0].conditions, v[1].conditions, v[2].conditions, v[3].conditions};
    forall row | row in ExecutedRows(RING) ensures row in four {
      var w :| w in v && w.executed && w.conditions == row;
    }
    SubsetIsSmaller(ExecutedRows(RING), four);
  }

  // ---- exactly when the n + 1 bound holds whatever the don't-cares

  ghost predicate CoveredWith(d: Decision, n: nat) {
    d.conditionCount == n && WellFormed(d) && Covered(d)
  }

  ghost predicate ServedBy(d: Decision, c: nat, l: TestVector, r: TestVector) {
    && l.conditions in ExecutedRows(d) && r.conditions in ExecutedRows(d)
    && |l.conditions| == |r.conditions| && IsPair(l, r, c)
  }

  lemma RowsOfPair(d: Decision, c: nat) returns (l: TestVector, r: TestVector)
    requires WellFormed(d) && Paired(d, c)
    ensures ServedBy(d, c, l, r)
  {
    var i, j :| 0 <= i < |d.vectors| && 0 <= j < |d.vectors| && IsPair(d.vectors[i], d.vectors[j], c);
    assert d.vectors[i] in d.vectors && d.vectors[j] in d.vectors;
    l, r := d.vectors[i], d.vectors[j];
  }

  /** One unordered pair of rows serves one condition, under whatever outcomes the rows are listed. */
  lemma RowsServeOneCondition(a: TestVector, b: TestVector, l: TestVector, r: TestVector, c: nat, k: nat)
    requires |a.conditions| == |b.conditions| == |l.conditions| == |r.conditions|
    requires IsPair(a, b, c) && IsPair(l, r, k) && c != k
    ensures {a.conditions, b.conditions} != {l.conditions, r.conditions}
  {
    assert Compatible(l.conditions[c], r.conditions[c]);
    assert a.conditions in {a.conditions, b.conditions} && b.conditions in {a.conditions, b.conditions};
    assert a.conditions[c] != b.conditions[c];
    assert l.conditions in {l.conditions, r.conditions} && r.conditions in {l.conditions, r.conditions};
  }

  lemma TwoOfThree<T>(s: set<T>, pair: set<T>, other: set<T>)
    requires pair <= s && other <= s && |pair| == 2 && pair != other && |other| == 2
    ensures |s| >= 3
  {
    SubsetIsSmaller(pair, s);
    if |s| == 2 {
      AsLargeIsWhole(pair, s);
      AsLargeIsWhole(other, s);
    }
  }

  lemma AsLargeIsWhole<T>(part: set<T>, whole: set<T>)
    requires part <= whole && |part| == |whole|
    ensures part == whole
  {
    assert whole == part + (whole - part);
    assert |whole - part| == 0;
  }

  lemma UpToTwoConditionsNeedRows(d: Decision, n: nat)
    requires 1 <= n <= 2 && CoveredWith(d, n)
    ensures |ExecutedRows(d)| >= n + 1
  {
    var rows := ExecutedRows(d);
    assert Paired(d, 0);
    var a, b := RowsOfPair(d, 0);
    assert a.conditions != b.conditions;
    SubsetIsSmaller({a.conditions, b.conditions}, rows);
    if n == 2 {
      assert Paired(d, 1);
      var l, r := RowsOfPair(d, 1);
      assert l.conditions != r.conditions;
      ExecutedRowsAreWide(d);
      RowsServeOneCondition(a, b, l, r, 0, 1);
      TwoOfThree(rows, {a.conditions, b.conditions}, {l.conditions, r.conditions});
    }
  }

  lemma ExecutedRowsAreWide(d: Decision)
    requires WellFormed(d)
    ensures forall row | row in ExecutedRows(d) :: |row| == d.conditionCount
  {
  }

  /** Row i of the ring holds True at i and False just before it, going round. */
  function RingRow(n: nat, i: nat): (row: Row)
    requires i < n
    ensures |row| == n
  {
    var before := if i == 0 then n - 1 else i - 1;
    seq(n, k requires 0 <= k < n => if k == i then True else if k == before then False else Absent)
  }

  function RingVector(n: nat, i: nat): (v: TestVector)
    requires i <= n && n > 0
    ensures |v.conditions| == n
  {
    TestVector(RingRow(n, if i == n then 0 else i), true, i % 2 == 0)
  }

  /** The rows in turn under alternating outcomes, the first one once more at the end. */
  function Ring(n: nat): (d: Decision)
    requires n > 0
    ensures WellFormed(d) && d.conditionCount == n && |d.vectors| == n + 1
  {
    Decision(n, seq(n + 1, i requires 0 <= i <= n => RingVector(n, i)))
  }

  lemma RingNeighbours(n: nat, c: nat)
    requires c < n && n >= 3
    ensures IsPair(RingVector(n, c), RingVector(n, c + 1), c)
  {
    var l, r := RingVector(n, c).conditions, RingVector(n, c + 1).conditions;
    forall k | 0 <= k < n && k != c ensures Compatible(l[k], r[k]) {
      assert l[k] == Absent || r[k] == Absent;
    }
  }

  lemma RingIsPaired(n: nat, c: nat)
    requires c < n && n >= 3
    ensures Paired(Ring(n), c)
  {
    RingNeighbours(n, c);
    assert Ring(n).vectors[c] == RingVector(n, c) && Ring(n).vectors[c + 1] == RingVector(n, c + 1);
  }

  function RingRows(n: nat, m: nat): set<Row>
    requires m <= n
  {
    set i | 0 <= i < m :: RingRow(n, i)
  }

  lemma {:induction false} RingRowsAreFew(n: nat, m: nat)
    requires m <= n
    ensures |RingRows(n, m)| <= m
  {
    if m == 0 {
      assert RingRows(n, m) == {};
    } else {
      RingRowsAreFew(n, m - 1);
      assert RingRows(n, m) == RingRows(n, m - 1) + {RingRow(n, m - 1)};
    }
  }

  /** From three conditions on the ring covers n conditions with n distinct rows. */
  lemma RingDefeatsTheRowBound(n: nat)
    requires n >= 3
    ensures CoveredWith(Ring(n), n) && |ExecutedRows(Ring(n))| <= n
  {
    forall c | 0 <= c < n ensures Paired(Ring(n), c) {
      RingIsPaired(n, c);
    }
    forall row | row in ExecutedRows(Ring(n)) ensures row in RingRows(n, n) {
      var v :| v in Ring(n).vectors && v.executed && v.conditions == row;
      var i :| 0 <= i <= n && Ring(n).vectors[i] == v;
      assert row == RingRow(n, if i == n then 0 else i);
    }
    RingRowsAreFew(n, n);
    SubsetIsSmaller(ExecutedRows(Ring(n)), RingRows(n, n));
  }

  /** With don't-cares allowed, every covered decision of n conditions needs n + 1 rows exactly when n is 1 or 2. */
  lemma RowBoundHoldsUpToTwo(n: nat)
    requires n >= 1
    ensures (forall d | CoveredWith(d, n) :: |ExecutedRows(d)| >= n + 1) <==> n <= 2
  {
    if n <= 2 {
      forall d | CoveredWith(d, n) ensures |ExecutedRows(d)| >= n + 1 {
        UpToTwoConditionsNeedRows(d, n);
      }
    } else {
      RingDefeatsTheRowBound(n);
    }
  }

  // ---- how few rows can cover n conditions

  /** The number of unordered pairs of `m` things. */
  function PairsOf(m: nat): (n: nat)
    ensures 2 * n == m * (m - 1)
  {
    if m == 0 then 0 else PairsOf(m - 1) + (m - 1)
  }

  lemma {:induction false} PairsGrow(a: nat, b: nat)
    requires a <= b
    ensures PairsOf(a) <= PairsOf(b)
    decreases b - a
  {
    if a < b {
      PairsGrow(a, b - 1);
    }
  }

  function Star(x: Row, rows: set<Row>): set<set<Row>> {
    set y | y in rows :: {x, y}
  }

  function Edges(rows: set<Row>): set<set<Row>> {
    set x, y | x in rows && y in rows && x != y :: {x, y}
  }

  lemma {:induction false} StarSize(x: Row, rows: set<Row>)
    ensures |Star(x, rows)| <= |rows|
  {
    if rows == {} {
      assert Star(x, rows) == {};
    } else {
      var y := Inhabitant(rows);
      StarSize(x, rows - {y});
      assert Star(x, rows) == Star(x, rows - {y}) + {{x, y}};
    }
  }

  lemma EdgesWithout(rows: set<Row>, x: Row)
    requires x in rows
    ensures Edges(rows) <= Edges(rows - {x}) + Star(x, rows - {x})
  {
    var others := rows - {x};
    forall e | e in Edges(rows) ensures e in Edges(others) + Star(x, others) {
      var y, z :| y in rows && z in rows && y != z && e == {y, z};
      if y == x {
        assert z in others && e == {x, z};
      } else if z == x {
        assert y in others && e == {x, y};
      } else {
        assert y in others && z in others;
      }
    }
  }

  lemma UnionSize<T>(part: set<T>, a: set<T>, b: set<T>, m: nat, n: nat)
    requires part <= a + b && |a| <= m && |b| <= n
    ensures |part| <= m + n
  {
    SubsetIsSmaller(part, a + b);
  }

  lemma NoEdges(rows: set<Row>)
    requires |rows| == 0
    ensures |Edges(rows)| == 0
  {
    assert rows == {} && Edges(rows) == {};
  }

  lemma OneMore(m: nat)
    requires m > 0
    ensures PairsOf(m) == PairsOf(m - 1) + (m - 1)
  {}

  lemma {:induction false} EdgeCount(rows: set<Row>, m: nat)
    requires m == |rows|
    ensures |Edges(rows)| <= PairsOf(m)
    decreases m
  {
    if m == 0 {
      NoEdges(rows);
    } else {
      var x := Inhabitant(rows);
      EdgesWithout(rows, x);
      StarSize(x, rows - {x});
      OneMore(m);
      EdgeCount(rows - {x}, m - 1);
      UnionSize(Edges(rows), Edges(rows - {x}), Star(x, rows - {x}), PairsOf(m - 1), m - 1);
    }
  }

  /** Two executed rows that pair for one of the first `n` conditions. */
  ghost predicate EdgeServes(d: Decision, e: set<Row>, n: nat) {
    exists c: nat, l, r :: c < n && ServedBy(d, c, l, r) && e == {l.conditions, r.conditions}
  }

  lemma {:induction false} DistinctEdges(d: Decision, n: nat) returns (edges: set<set<Row>>)
    requires WellFormed(d) && n <= d.conditionCount && forall c: nat | c < n :: Paired(d, c)
    ensures |edges| == n && forall e | e in edges :: EdgeServes(d, e, n)
  {
    if n == 0 {
      edges := {};
    } else {
      var fewer := DistinctEdges(d, n - 1);
      var l, r := RowsOfPair(d, n - 1);
      var edge := {l.conditions, r.conditions};
      ExecutedRowsAreWide(d);
      forall e | e in fewer ensures e != edge && EdgeServes(d, e, n) {
        assert EdgeServes(d, e, n - 1);
        var c: nat, a, b :| c < n - 1 && ServedBy(d, c, a, b) && e == {a.conditions, b.conditions};
        RowsServeOneCondition(a, b, l, r, c, n - 1);
      }
      edges := fewer + {edge};
    }
  }

  /** Whatever the don't-cares, m distinct executed rows cover no more conditions than they have pairs. */
  lemma CoveredNeedsRowPairs(d: Decision)
    requires WellFormed(d) && Covered(d)
    ensures d.conditionCount <= PairsOf(|ExecutedRows(d)|)
  {
    forall c: nat | c < d.conditionCount ensures Paired(d, c) {}
    var edges := DistinctEdges(d, d.conditionCount);
    forall e | e in edges ensures e in Edges(ExecutedRows(d)) {
      assert EdgeServes(d, e, d.conditionCount);
      var c: nat, l, r :| ServedBy(d, c, l, r) && e == {l.conditions, r.conditions};
      assert l.conditions != r.conditions;
    }
    SubsetIsSmaller(edges, Edges(ExecutedRows(d)));
    EdgeCount(ExecutedRows(d), |ExecutedRows(d)|);
  }

  /** The larger number of the c-th pair; the smaller one is what is left of c. */
  function Upper(c: nat): (u: nat)
    ensures PairsOf(u) <= c < PairsOf(u + 1)
  {
    if c == 0 then 1 else if c == PairsOf(Upper(c - 1) + 1) then Upper(c - 1) + 1 else Upper(c - 1)
  }

  function Lower(c: nat): (l: nat)
    ensures l < Upper(c) && c == PairsOf(Upper(c)) + l
  {
    c - PairsOf(Upper(c))
  }

  /** Row k has a value for the conditions whose pair it is in, one value if it is the larger and one if the smaller. */
  function CompleteRow(n: nat, k: nat): (row: Row)
    ensures |row| == n
  {
    seq(n, c requires 0 <= c < n => if k == Upper(c) then True else if k == Lower(c) then False else Absent)
  }

  function CompleteVector(n: nat, i: nat): (v: TestVector)
    ensures |v.conditions| == n && v.executed
  {
    TestVector(CompleteRow(n, i / 2), true, i % 2 == 0)
  }

  /** Each of m rows under both outcomes. */
  function Complete(n: nat, m: nat): (d: Decision)
    ensures WellFormed(d) && d.conditionCount == n && |d.vectors| == 2 * m
    ensures forall i | 0 <= i < 2 * m :: d.vectors[i] == CompleteVector(n, i)
  {
    Decision(n, seq(2 * m, i requires 0 <= i < 2 * m => CompleteVector(n, i)))
  }

  lemma BothOutcomes(n: nat, k: nat)
    ensures CompleteVector(n, 2 * k) == TestVector(CompleteRow(n, k), true, true)
    ensures CompleteVector(n, 2 * k + 1) == TestVector(CompleteRow(n, k), true, false)
  {
    assert 2 * k / 2 == k && (2 * k + 1) / 2 == k;
  }

  lemma PairIsItsNumber(c: nat, k: nat)
    ensures Upper(c) == Upper(k) && Lower(c) == Lower(k) ==> c == k
  {
  }

  lemma CompleteNeighbours(n: nat, c: nat)
    requires c < n
    ensures IsPair(TestVector(CompleteRow(n, Upper(c)), true, true), TestVector(CompleteRow(n, Lower(c)), true, false), c)
  {
    var l, r := CompleteRow(n, Upper(c)), CompleteRow(n, Lower(c));
    forall k: nat | k < n && k != c ensures Compatible(l[k], r[k]) {
      PairIsItsNumber(c, k);
    }
  }

  lemma UpperIsBelow(c: nat, m: nat)
    requires c < PairsOf(m)
    ensures Upper(c) < m
  {
    if m <= Upper(c) {
      PairsGrow(m, Upper(c));
    }
  }

  lemma CompleteIsPaired(n: nat, m: nat, c: nat)
    requires c < n <= PairsOf(m)
    ensures Paired(Complete(n, m), c)
  {
    UpperIsBelow(c, m);
    var i, j := 2 * Upper(c), 2 * Lower(c) + 1;
    CompleteNeighbours(n, c);
    BothOutcomes(n, Upper(c));
    BothOutcomes(n, Lower(c));
    PairedAt(Complete(n, m), i, j, c);
  }

  lemma PairedAt(d: Decision, i: nat, j: nat, c: nat)
    requires WellFormed(d) && i < |d.vectors| && j < |d.vectors| && IsPair(d.vectors[i], d.vectors[j], c)
    ensures Paired(d, c)
  {
  }

  function CompleteRows(n: nat, m: nat): set<Row> {
    set k | 0 <= k < m :: CompleteRow(n, k)
  }

  lemma {:induction false} CompleteRowsAreFew(n: nat, m: nat)
    ensures |CompleteRows(n, m)| <= m
  {
    if m == 0 {
      assert CompleteRows(n, m) == {};
    } else {
      CompleteRowsAreFew(n, m - 1);
      assert CompleteRows(n, m) == CompleteRows(n, m - 1) + {CompleteRow(n, m - 1)};
    }
  }

  lemma CompleteCovers(n: nat, m: nat)
    requires 1 <= n <= PairsOf(m)
    ensures CoveredWith(Complete(n, m), n) && |ExecutedRows(Complete(n, m))| <= m
  {
    var d := Complete(n, m);
    forall c | 0 <= c < n ensures Paired(d, c) {
      CompleteIsPaired(n, m, c);
    }
    forall row | row in ExecutedRows(d) ensures row in CompleteRows(n, m) {
      var v :| v in d.vectors && v.executed && v.conditions == row;
      var i :| 0 <= i < 2 * m && d.vectors[i] == v;
      assert v == CompleteVector(n, i) && 0 <= i / 2 < m;
    }
    CompleteRowsAreFew(n, m);
    SubsetIsSmaller(ExecutedRows(d), CompleteRows(n, m));
  }

  /** With don't-cares, m distinct executed rows can cover n conditions exactly when they have n pairs. */
  lemma FewestRows(n: nat, m: nat)
    requires n >= 1
    ensures (exists d :: CoveredWith(d, n) && |ExecutedRows(d)| <= m) <==> n <= PairsOf(m)
  {
    forall d | CoveredWith(d, n) && |ExecutedRows(d)| <= m ensures n <= PairsOf(m) {
      CoveredNeedsRowPairs(d);
      PairsGrow(|ExecutedRows(d)|, m);
    }
    if n <= PairsOf(m) {
      CompleteCovers(n, m);
    }
  }

  // ---- how few vectors of either outcome

  /** Passing vector i has the conditions of its row of a grid, failing vector j those of its column. */
  function GridVector(n: nat, t: nat, f: nat, i: nat): (v: TestVector)
    requires f > 0
    ensures |v.conditions| == n && v.executed && v.result == (i < t)
  {
    if i < t then TestVector(seq(n, c requires 0 <= c < n => if c / f == i then True else Absent), true, true)
    else TestVector(seq(n, c requires 0 <= c < n => if c % f == i - t then False else Absent), true, false)
  }

  function Grid(n: nat, t: nat, f: nat): (d: Decision)
    requires f > 0
    ensures WellFormed(d) && d.conditionCount == n && |d.vectors| == t + f
  {
    Decision(n, seq(t + f, i requires 0 <= i < t + f => GridVector(n, t, f, i)))
  }

  lemma ProductsGrow(a: nat, b: nat, t: nat, f: nat)
    requires a <= t && b <= f
    ensures a * b <= t * f
  {
    assert t * f == a * b + a * (f - b) + (t - a) * f;
    assert a * (f - b) >= 0 && (t - a) * f >= 0;
  }

  lemma PlaceInGrid(c: nat, t: nat, f: nat)
    requires f > 0 && c < t * f
    ensures c / f < t && c % f < f
  {
    assert c == c / f * f + c % f;
    if c / f >= t {
      ProductsGrow(t, f, c / f, f);
    }
  }

  lemma SamePlace(c: nat, k: nat, f: nat)
    requires f > 0 && c / f == k / f && c % f == k % f
    ensures c == k
  {
    assert c == c / f * f + c % f && k == k / f * f + k % f;
  }

  lemma GridIsPaired(n: nat, t: nat, f: nat, c: nat)
    requires f > 0 && c < n <= t * f
    ensures Paired(Grid(n, t, f), c)
  {
    PlaceInGrid(c, t, f);
    var d := Grid(n, t, f);
    var i, j := c / f, t + c % f;
    var l, r := GridVector(n, t, f, i), GridVector(n, t, f, j);
    forall k: nat | k < n && k != c ensures Compatible(l.conditions[k], r.conditions[k]) {
      if k / f == c / f && k % f == c % f {
        SamePlace(c, k, f);
      }
    }
    assert d.vectors[i] == l && d.vectors[j] == r;
    assert IsPair(d.vectors[i], d.vectors[j], c);
  }

  function GridVectors(n: nat, t: nat, f: nat, low: nat, high: nat): set<TestVector>
    requires f > 0
  {
    set i | low <= i < high :: GridVector(n, t, f, i)
  }

  lemma {:induction false} GridVectorsAreFew(n: nat, t: nat, f: nat, low: nat, high: nat)
    requires f > 0 && low <= high
    ensures |GridVectors(n, t, f, low, high)| <= high - low
    decreases high
  {
    if low == high {
      assert GridVectors(n, t, f, low, high) == {};
    } else {
      GridVectorsAreFew(n, t, f, low, high - 1);
      assert GridVectors(n, t, f, low, high) == GridVectors(n, t, f, low, high - 1) + {GridVector(n, t, f, high - 1)};
    }
  }

  lemma GridReaches(n: nat, t: nat, f: nat, outcome: bool)
    requires f > 0
    ensures |Reaching(Grid(n, t, f), outcome)| <= if outcome then t else f
  {
    var low, high := if outcome then 0 else t, if outcome then t else t + f;
    var d := Grid(n, t, f);
    forall v | v in Reaching(d, outcome) ensures v in GridVectors(n, t, f, low, high) {
      var i :| 0 <= i < t + f && d.vectors[i] == v;
      assert v == GridVector(n, t, f, i);
    }
    GridVectorsAreFew(n, t, f, low, high);
    SubsetIsSmaller(Reaching(d, outcome), GridVectors(n, t, f, low, high));
  }

  lemma GridCovers(n: nat, t: nat, f: nat)
    requires 1 <= n <= t * f
    ensures f > 0 && CoveredWith(Grid(n, t, f), n)
  {
    assert f == 0 ==> t * f == 0;
    forall c | 0 <= c < n ensures Paired(Grid(n, t, f), c) {
      GridIsPaired(n, t, f, c);
    }
  }

  /** t distinct executed passing vectors and f failing ones can cover n conditions exactly when n is at most t * f. */
  lemma FewestOfBothOutcomes(n: nat, t: nat, f: nat)
    requires n >= 1
    ensures (exists d :: CoveredWith(d, n) && |Reaching(d, true)| <= t && |Reaching(d, false)| <= f) <==> n <= t * f
  {
    forall d | CoveredWith(d, n) && |Reaching(d, true)| <= t && |Reaching(d, false)| <= f ensures n <= t * f {
      CoveredNeedsBothOutcomes(d);
      ProductsGrow(|Reaching(d, true)|, |Reaching(d, false)|, t, f);
    }
    if n <= t * f {
      GridCovers(n, t, f);
      GridReaches(n, t, f, true);
      GridReaches(n, t, f, false);
    }
  }
}
