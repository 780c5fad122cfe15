// Python's ordering of str values: lexicographic by code point, a proper
// prefix sorting before the longer string.

module StringOrder {

  /** `a <= b` on Python strings: the first differing code point decides,
      and a prefix sorts before (or equal to) every string it starts. */
  predicate LessEq(a: string, b: string)
    ensures a != [] && b != [] && a[0] != b[0] ==> (LessEq(a, b) <==> a[0] < b[0])
    ensures |a| <= |b| && a == b[..|a|] ==> LessEq(a, b)
    ensures |b| < |a| && b == a[..|b|] ==> !LessEq(a, b)
    ensures forall k :: 0 <= k < |a| && k < |b| && a[..k] == b[..k] && a[k] != b[k] ==>
              (LessEq(a, b) <==> a[k] < b[k])
  {
    if a != [] && b != [] && a[0] == b[0] then
      assert forall k :: 1 <= k < |a| && k < |b| && a[..k] == b[..k] ==>
               a[1..][..k - 1] == b[1..][..k - 1];
      assert |a| <= |b| && a == b[..|a|] ==> a[1..] == b[1..][..|a| - 1];
      assert |b| < |a| && b == a[..|b|] ==> b[1..] == a[1..][..|b| - 1];
      LessEq(a[1..], b[1..])
    else
      a == [] || (b != [] && a[0] < b[0])
  }

  lemma {:induction false} Reflexive(a: string)
    ensures LessEq(a, a)
  {
    if a != [] {
      Reflexive(a[1..]);
    }
  }

  lemma {:induction false} Total(a: string, b: string)
    ensures LessEq(a, b) || LessEq(b, a)
  {
    if a != [] && b != [] && a[0] == b[0] {
      Total(a[1..], b[1..]);
    }
  }

  lemma {:induction false} Antisymmetric(a: string, b: string)
    requires LessEq(a, b) && LessEq(b, a)
    ensures a == b
  {
    if a != [] && b != [] {
      Antisymmetric(a[1..], b[1..]);
      assert a == [a[0]] + a[1..];
      assert b == [b[0]] + b[1..];
    }
  }

  lemma {:induction false} Transitive(a: string, b: string, c: string)
    requires LessEq(a, b) && LessEq(b, c)
    ensures LessEq(a, c)
  {
    if a != [] && b != [] && c != [] && a[0] == b[0] == c[0] {
      Transitive(a[1..], b[1..], c[1..]);
    }
  }
}
