/**
  The values of the accepted JSON subset, object construction by sorting, and member lookup by
  binary search.
 */
module CanonicalValue {
  import opened Options
  import opened Utf
  import opened JcsOrder
  import opened Sorting

  datatype Value =
    | Null
    | Boolean(boolean: bool)
    | Integer(integer: int)
    | Text(text: string)
    | Array(elements: seq<Value>)
    | Object(members: seq<Member>)

  datatype Member = Member(key: string, value: Value)

  predicate ValidKeys(members: seq<Member>) {
    forall i | 0 <= i < |members| :: IsUtf8(members[i].key)
  }

  predicate DistinctKeys(members: seq<Member>) {
    forall i, j | 0 <= i < j < |members| :: members[i].key != members[j].key
  }

  predicate MemberLess(left: Member, right: Member) {
    KeyLess(left.key, right.key)
  }

  /** Strictly ascending in canonical order, so without duplicates. */
  ghost predicate Ascending(members: seq<Member>) {
    Ascends(MemberLess, members)
  }

  /** The members in canonical order. */
  function Sorted(members: seq<Member>): seq<Member> {
    Sort(MemberLess, members)
  }

  function MakeObject(members: seq<Member>): Value {
    Object(Sorted(members))
  }

  lemma MemberLessIsStrictOrder()
    ensures IsStrictOrder(MemberLess)
  {
    forall a, b, c ensures !MemberLess(a, a) && (MemberLess(a, b) && MemberLess(b, c) ==> MemberLess(a, c)) {
      KeyLessIsStrictTotalOrder(a.key, b.key, c.key);
    }
  }

  lemma DistinctKeysSeparate(members: seq<Member>)
    requires ValidKeys(members) && DistinctKeys(members)
    ensures Separates(MemberLess, members)
  {
    forall i, j | 0 <= i < j < |members|
      ensures MemberLess(members[i], members[j]) || MemberLess(members[j], members[i])
    {
      KeyLessIsStrictTotalOrder(members[i].key, members[j].key, members[i].key);
    }
  }

  lemma SortedAscends(members: seq<Member>)
    requires ValidKeys(members) && DistinctKeys(members)
    ensures Ascending(Sorted(members)) && ValidKeys(Sorted(members))
    ensures multiset(Sorted(members)) == multiset(members)
  {
    MemberLessIsStrictOrder();
    DistinctKeysSeparate(members);
    SortAscends(MemberLess, members);
    SortKeeps(MemberLess, members);
    var sorted := Sorted(members);
    forall i | 0 <= i < |sorted| ensures IsUtf8(sorted[i].key) {
      SameMembers(sorted, members, sorted[i]);
    }
  }

  /** Construction does not depend on the order in which distinct members are listed. */
  lemma MakeObjectIgnoresOrder(left: seq<Member>, right: seq<Member>)
    requires ValidKeys(left) && ValidKeys(right) && DistinctKeys(left) && DistinctKeys(right)
    requires multiset(left) == multiset(right)
    ensures MakeObject(left) == MakeObject(right)
  {
    MemberLessIsStrictOrder();
    DistinctKeysSeparate(left);
    DistinctKeysSeparate(right);
    SortIgnoresOrder(MemberLess, left, right);
  }

  lemma AscendingIsDistinct(members: seq<Member>)
    requires Ascending(members)
    ensures DistinctKeys(members)
  {
    forall i, j | 0 <= i < j < |members| ensures members[i].key != members[j].key {
      assert MemberLess(members[i], members[j]);
      KeyLessIsStrictTotalOrder(members[i].key, members[j].key, members[i].key);
    }
  }

  /** An object already in canonical order is rebuilt as it is. */
  lemma SortingAscendingChangesNothing(members: seq<Member>)
    requires ValidKeys(members) && Ascending(members)
    ensures Sorted(members) == members
  {
    MemberLessIsStrictOrder();
    AscendingIsDistinct(members);
    SortedAscends(members);
    AscendingIsUnique(MemberLess, Sorted(members), members);
  }

  /** The first member of that name, read from the front. */
  function LinearFind(members: seq<Member>, name: string): Option<Value> {
    if members == [] then None
    else if members[0].key == name then Some(members[0].value)
    else LinearFind(members[1..], name)
  }

  lemma {:induction false} LinearFindAt(members: seq<Member>, name: string, k: nat)
    requires k < |members| && members[k].key == name && DistinctKeys(members)
    ensures LinearFind(members, name) == Some(members[k].value)
  {
    if k > 0 {
      assert members[0].key != members[k].key;
      LinearFindAt(members[1..], name, k - 1);
    }
  }

  lemma {:induction false} LinearFindNone(members: seq<Member>, name: string)
    requires forall i | 0 <= i < |members| :: members[i].key != name
    ensures LinearFind(members, name) == None
  {
    if members != [] { LinearFindNone(members[1..], name); }
  }

  /** `std::lower_bound` over the sorted members, then one equality test; any name may be asked for. */
  method Find(members: seq<Member>, name: string) returns (found: Option<Value>)
    requires ValidKeys(members) && Ascending(members)
    ensures found == LinearFind(members, name)
  {
    AscendingIsDistinct(members);
    var first, count := 0, |members|;
    while count > 0
      invariant 0 <= first && 0 <= count && first + count <= |members|
      invariant IsUtf8(name) ==> forall i | 0 <= i < first :: KeyLess(members[i].key, name)
      invariant IsUtf8(name) ==> forall i | first + count <= i < |members| :: !KeyLess(members[i].key, name)
    {
      var step := count / 2;
      var less := JcsKeyLess(members[first + step].key, name);
      ghost var middle := first + step;
      if IsUtf8(name) {
        BisectionStep(members, name, middle);
      }
      if less {
        first, count := first + step + 1, count - step - 1;
      } else {
        count := step;
      }
    }
    if first == |members| || members[first].key != name {
      NotAtBoundary(members, name, first);
      return None;
    }
    LinearFindAt(members, name, first);
    return Some(members[first].value);
  }

  /** What one comparison says about everything on its side of the middle. */
  lemma BisectionStep(members: seq<Member>, name: string, middle: nat)
    requires ValidKeys(members) && Ascending(members) && IsUtf8(name) && middle < |members|
    ensures KeyLess(members[middle].key, name) ==> forall i | 0 <= i <= middle :: KeyLess(members[i].key, name)
    ensures !KeyLess(members[middle].key, name) ==> forall i | middle <= i < |members| :: !KeyLess(members[i].key, name)
  {
    forall i | 0 <= i < |members| ensures i <= middle && KeyLess(members[middle].key, name) ==> KeyLess(members[i].key, name)
      ensures i >= middle && !KeyLess(members[middle].key, name) ==> !KeyLess(members[i].key, name)
    {
      assert i < middle ==> MemberLess(members[i], members[middle]);
      assert middle < i ==> MemberLess(members[middle], members[i]);
      KeyLessIsStrictTotalOrder(members[i].key, members[middle].key, name);
      KeyLessIsStrictTotalOrder(members[middle].key, members[i].key, name);
    }
  }

  lemma NotAtBoundary(members: seq<Member>, name: string, first: nat)
    requires ValidKeys(members) && Ascending(members) && first <= |members|
    requires IsUtf8(name) ==> forall i | 0 <= i < first :: KeyLess(members[i].key, name)
    requires IsUtf8(name) ==> forall i | first <= i < |members| :: !KeyLess(members[i].key, name)
    requires first == |members| || members[first].key != name
    ensures LinearFind(members, name) == None
  {
    forall i | 0 <= i < |members| ensures members[i].key != name {
      var key := members[i].key;
      KeyLessIsStrictTotalOrder(key, key, key);
      assert i > first ==> MemberLess(members[first], members[i]);
    }
    LinearFindNone(members, name);
  }
}
