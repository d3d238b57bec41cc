/** Sorting by a strict order under which the listed values all differ. */
module Sorting {

  ghost predicate IsStrictOrder<T(!new)>(less: (T, T) -> bool) {
    && (forall x :: !less(x, x))
    && (forall x, y, z :: less(x, y) && less(y, z) ==> less(x, z))
  }

  /** Any two listed values are ordered one way or the other. */
  ghost predicate Separates<T>(less: (T, T) -> bool, xs: seq<T>) {
    forall i, j | 0 <= i < j < |xs| :: less(xs[i], xs[j]) || less(xs[j], xs[i])
  }

  ghost predicate Ascends<T>(less: (T, T) -> bool, xs: seq<T>) {
    forall i, j | 0 <= i < j < |xs| :: less(xs[i], xs[j])
  }

  function Insert<T>(less: (T, T) -> bool, x: T, xs: seq<T>): (r: seq<T>)
    ensures |r| == |xs| + 1
  {
    if xs == [] || less(x, xs[0]) then [x] + xs else [xs[0]] + Insert(less, x, xs[1..])
  }

  function Sort<T>(less: (T, T) -> bool, xs: seq<T>): (r: seq<T>)
    ensures |r| == |xs|
  {
    if xs == [] then [] else Insert(less, xs[0], Sort(less, xs[1..]))
  }

  lemma {:induction false} InsertKeeps<T>(less: (T, T) -> bool, x: T, xs: seq<T>)
    ensures multiset(Insert(less, x, xs)) == multiset(xs) + multiset{x}
  {
    if !(xs == [] || less(x, xs[0])) {
      InsertKeeps(less, x, xs[1..]);
      assert xs == [xs[0]] + xs[1..];
    }
  }

  lemma {:induction false} SortKeeps<T>(less: (T, T) -> bool, xs: seq<T>)
    ensures multiset(Sort(less, xs)) == multiset(xs)
  {
    if xs != [] {
      SortKeeps(less, xs[1..]);
      InsertKeeps(less, xs[0], Sort(less, xs[1..]));
      assert xs == [xs[0]] + xs[1..];
    }
  }

  lemma SameMembers<T>(xs: seq<T>, ys: seq<T>, x: T)
    requires multiset(xs) == multiset(ys) && x in xs
    ensures x in ys
  {
    assert x in multiset(ys);
  }

  lemma {:induction false} InsertAscends<T(!new)>(less: (T, T) -> bool, x: T, xs: seq<T>)
    requires IsStrictOrder(less) && Ascends(less, xs)
    requires forall y | y in xs :: less(x, y) || less(y, x)
    ensures Ascends(less, Insert(less, x, xs))
  {
    if xs == [] {
    } else if less(x, xs[0]) {
      assert forall j | 0 < j < |xs| :: less(x, xs[j]);
    } else {
      assert xs[0] in xs;
      InsertAscends(less, x, xs[1..]);
      InsertKeeps(less, x, xs[1..]);
      var tail := Insert(less, x, xs[1..]);
      forall j | 0 <= j < |tail| ensures less(xs[0], tail[j]) {
        assert tail[j] in multiset(tail);
        assert tail[j] == x || tail[j] in xs[1..];
      }
    }
  }

  lemma {:induction false} SortAscends<T(!new)>(less: (T, T) -> bool, xs: seq<T>)
    requires IsStrictOrder(less) && Separates(less, xs)
    ensures Ascends(less, Sort(less, xs))
  {
    if xs != [] {
      var tail := xs[1..];
      SortAscends(less, tail);
      SortKeeps(less, tail);
      forall y | y in Sort(less, tail) ensures less(xs[0], y) || less(y, xs[0]) {
        SameMembers(Sort(less, tail), tail, y);
        var j :| 0 <= j < |tail| && tail[j] == y;
        assert xs[j + 1] == y;
      }
      InsertAscends(less, xs[0], Sort(less, tail));
    }
  }

  /** There is one ascending arrangement. */
  lemma {:induction false} AscendingIsUnique<T(!new)>(less: (T, T) -> bool, xs: seq<T>, ys: seq<T>)
    requires IsStrictOrder(less) && Ascends(less, xs) && Ascends(less, ys)
    requires multiset(xs) == multiset(ys)
    ensures xs == ys
  {
    assert |multiset(xs)| == |xs| && |multiset(ys)| == |ys|;
    if xs != [] {
      FirstIsShared(less, xs, ys);
      assert xs == [xs[0]] + xs[1..] && ys == [ys[0]] + ys[1..];
      assert multiset(xs[1..]) == multiset(xs) - multiset{xs[0]};
      assert multiset(ys[1..]) == multiset(ys) - multiset{ys[0]};
      AscendingIsUnique(less, xs[1..], ys[1..]);
    }
  }

  lemma FirstIsShared<T(!new)>(less: (T, T) -> bool, xs: seq<T>, ys: seq<T>)
    requires IsStrictOrder(less) && Ascends(less, xs) && Ascends(less, ys)
    requires multiset(xs) == multiset(ys) && xs != [] && ys != []
    ensures xs[0] == ys[0]
  {
    SameMembers(xs, ys, xs[0]);
    SameMembers(ys, xs, ys[0]);
    var x, y := xs[0], ys[0];
    var i :| 0 <= i < |ys| && ys[i] == x;
    var j :| 0 <= j < |xs| && xs[j] == y;
    assert i == 0 || less(y, x);
    assert j == 0 || less(x, y);
  }

  /** Sorting forgets the order in which the values were listed. */
  lemma SortIgnoresOrder<T(!new)>(less: (T, T) -> bool, xs: seq<T>, ys: seq<T>)
    requires IsStrictOrder(less) && Separates(less, xs) && Separates(less, ys)
    requires multiset(xs) == multiset(ys)
    ensures Sort(less, xs) == Sort(less, ys)
  {
    SortAscends(less, xs);
    SortAscends(less, ys);
    SortKeeps(less, xs);
    SortKeeps(less, ys);
    AscendingIsUnique(less, Sort(less, xs), Sort(less, ys));
  }
}
