/** Lists with the same members, in any order. */
module Permutations {

  function Without<T>(xs: seq<T>, k: nat): seq<T>
    requires k < |xs|
  {
    xs[..k] + xs[k + 1..]
  }

  lemma WithoutMembers<T>(xs: seq<T>, k: nat)
    requires k < |xs|
    ensures multiset(xs) == multiset(Without(xs, k)) + multiset{xs[k]}
    ensures multiset(Without(xs, k)) == multiset(xs) - multiset{xs[k]}
  {
    assert xs == xs[..k] + [xs[k]] + xs[k + 1..];
  }

  /** One member first, the others as they were. */
  function Fronted<T>(xs: seq<T>, k: nat): (r: seq<T>)
    requires k < |xs|
    ensures r != [] && r[0] == xs[k]
  {
    [xs[k]] + Without(xs, k)
  }

  lemma FrontedMembers<T>(xs: seq<T>, k: nat)
    requires k < |xs|
    ensures multiset(Fronted(xs, k)) == multiset(xs)
  {
    WithoutMembers(xs, k);
  }

  /** Taking one shared member out of both keeps them, or leaves them, the same members. */
  lemma WithoutSame<T>(xs: seq<T>, i: nat, ys: seq<T>, j: nat)
    requires i < |xs| && j < |ys| && xs[i] == ys[j]
    ensures multiset(Without(xs, i)) == multiset(Without(ys, j)) <==> multiset(xs) == multiset(ys)
  {
    WithoutMembers(xs, i);
    WithoutMembers(ys, j);
  }

  /** Where a member of one stands in the other. */
  lemma Counterpart<T>(xs: seq<T>, ys: seq<T>, i: nat) returns (j: nat)
    requires multiset(xs) == multiset(ys) && i < |xs|
    ensures j < |ys| && ys[j] == xs[i]
  {
    assert xs[i] in multiset(xs);
    assert xs[i] in multiset(ys);
    j :| 0 <= j < |ys| && ys[j] == xs[i];
  }

  /** Two members at different places of one stand at different places of the other. */
  lemma TwoCounterparts<T>(xs: seq<T>, ys: seq<T>, i: nat, j: nat) returns (m: nat, n: nat)
    requires multiset(xs) == multiset(ys) && i < j < |xs|
    ensures m < |ys| && n < |ys| && m != n && ys[m] == xs[i] && ys[n] == xs[j]
  {
    m := Counterpart(xs, ys, i);
    WithoutSame(xs, i, ys, m);
    assert Without(xs, i)[j - 1] == xs[j];
    var k := Counterpart(Without(xs, i), Without(ys, m), j - 1);
    n := if k < m then k else k + 1;
  }
}
