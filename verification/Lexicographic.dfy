/** Lexicographic order of number strings, and so of byte strings. */
module Lexicographic {

  /** The first difference decides; a proper prefix comes first. */
  predicate LexLess(left: seq<int>, right: seq<int>) {
    right != [] && (left == [] || left[0] < right[0] || (left[0] == right[0] && LexLess(left[1..], right[1..])))
  }

  lemma {:induction false} LexIrreflexive(a: seq<int>)
    ensures !LexLess(a, a)
  {
    if a != [] { LexIrreflexive(a[1..]); }
  }

  lemma {:induction false} LexTransitive(a: seq<int>, b: seq<int>, c: seq<int>)
    requires LexLess(a, b) && LexLess(b, c)
    ensures LexLess(a, c)
  {
    if a != [] && a[0] == b[0] && b[0] == c[0] { LexTransitive(a[1..], b[1..], c[1..]); }
  }

  lemma {:induction false} LexTotal(a: seq<int>, b: seq<int>)
    ensures a == b || LexLess(a, b) || LexLess(b, a)
  {
    if a != [] && b != [] && a[0] == b[0] {
      LexTotal(a[1..], b[1..]);
      assert a == [a[0]] + a[1..] && b == [b[0]] + b[1..];
    }
  }

  function Bytes(text: string): seq<int> {
    seq(|text|, i requires 0 <= i < |text| => text[i] as int)
  }

  lemma BytesAreInjective(a: string, b: string)
    requires Bytes(a) == Bytes(b)
    ensures a == b
  {
    forall i | 0 <= i < |a| ensures a[i] == b[i] {
      assert Bytes(a)[i] == Bytes(b)[i];
    }
  }

  lemma BytesOfPrefix(a: string, x: string)
    ensures Bytes(a + x) == Bytes(a) + Bytes(x)
  {
  }

  // ---- prefixes

  lemma {:induction false} LexOfPrefix(p: seq<int>, w: seq<int>)
    requires p <= w
    ensures p == w || LexLess(p, w)
  {
    if p != [] {
      LexOfPrefix(p[1..], w[1..]);
      assert p == [p[0]] + p[1..] && w == [w[0]] + w[1..];
    }
  }

  lemma {:induction false} LexCancel(p: seq<int>, v: seq<int>, w: seq<int>)
    ensures LexLess(p + v, p + w) <==> LexLess(v, w)
  {
    if p == [] {
      assert p + v == v && p + w == w;
    } else {
      assert (p + v)[1..] == p[1..] + v && (p + w)[1..] == p[1..] + w;
      LexCancel(p[1..], v, w);
    }
  }

  /** What is below an extension of a string without beginning with it is below the string. */
  lemma {:induction false} LexBelowExtension(r: seq<int>, q: seq<int>, w: seq<int>)
    requires q <= w && LexLess(r, w) && !(q <= r)
    ensures LexLess(r, q)
  {
    if r != [] && r[0] == q[0] {
      assert q == [q[0]] + q[1..] && r == [r[0]] + r[1..];
      LexBelowExtension(r[1..], q[1..], w[1..]);
    }
  }

  lemma {:induction false} LexAt(l: seq<int>, r: seq<int>, i: nat)
    requires i < |l| && i < |r| && l[i] < r[i] && forall j | 0 <= j < i :: l[j] == r[j]
    ensures LexLess(l, r)
  {
    if i > 0 {
      LexAt(l[1..], r[1..], i - 1);
    }
  }
}
