/** Ordering used by the script's two in-place sorts: Python's `<` on `str`
    (code-point lexicographic), and `list.sort()` itself, modelled as an
    in-place insertion sort that, like Python's, consults only `<`. */
module Ordering {

  /** Python's `a < b` on strings: the first differing code point decides,
      and a proper prefix is smaller. */
  predicate StrLt(a: string, b: string): (r: bool)
    ensures |a| <= |b| && b[..|a|] == a ==> (r <==> |a| < |b|)
  {
    if |a| == 0 then |b| > 0
    else if |b| == 0 then false
    else if a[0] != b[0] then a[0] < b[0]
    else
      assert |a| <= |b| && b[..|a|] == a ==> b[1..][..|a| - 1] == a[1..];
      StrLt(a[1..], b[1..])
  }

  /** When neither string is a prefix of the other, the first position
      where they differ decides. */
  lemma {:induction false} StrLtFirstDifference(a: string, b: string, k: nat)
    requires k < |a| && k < |b| && a[..k] == b[..k] && a[k] != b[k]
    ensures StrLt(a, b) <==> a[k] < b[k]
  {
    if k > 0 {
      assert a[0] == a[..k][0] == b[..k][0] == b[0];
      assert a[1..][..k - 1] == a[..k][1..] == b[..k][1..] == b[1..][..k - 1];
      StrLtFirstDifference(a[1..], b[1..], k - 1);
    }
  }

  lemma {:induction false} StrLtIrreflexive(a: string)
    ensures !StrLt(a, a)
  {
    if |a| > 0 { StrLtIrreflexive(a[1..]); }
  }

  lemma {:induction false} StrLtTransitive(a: string, b: string, c: string)
    requires StrLt(a, b) && StrLt(b, c)
    ensures StrLt(a, c)
  {
    if |a| > 0 && |b| > 0 && |c| > 0 && a[0] == b[0] == c[0] {
      StrLtTransitive(a[1..], b[1..], c[1..]);
    }
  }

  lemma {:induction false} StrLtTrichotomy(a: string, b: string)
    ensures a == b || StrLt(a, b) || StrLt(b, a)
  {
    if |a| > 0 && |b| > 0 && a[0] == b[0] {
      StrLtTrichotomy(a[1..], b[1..]);
      if a[1..] == b[1..] {
        assert a == [a[0]] + a[1..] && b == [b[0]] + b[1..];
      }
    }
  }

  lemma StrLtAsymmetric(a: string, b: string)
    requires StrLt(a, b)
    ensures !StrLt(b, a)
  {
    if StrLt(b, a) {
      StrLtTransitive(a, b, a);
      StrLtIrreflexive(a);
    }
  }

  /** No element of `s` is smaller than its predecessor. */
  ghost predicate AdjacentSorted<T>(s: seq<T>, lt: (T, T) -> bool) {
    forall k :: 0 < k < |s| ==> !lt(s[k], s[k - 1])
  }

  /** No element of `s` is smaller than any element before it. */
  ghost predicate Sorted<T>(s: seq<T>, lt: (T, T) -> bool) {
    forall i, j :: 0 <= i < j < |s| ==> !lt(s[j], s[i])
  }

  /** `lt` never holds both ways. */
  ghost predicate Asymmetric<T(!new)>(lt: (T, T) -> bool) {
    forall x, y :: lt(x, y) ==> !lt(y, x)
  }

  /** "Not smaller" is transitive, as it is for every strict total order. */
  ghost predicate NotLtTransitive<T(!new)>(lt: (T, T) -> bool) {
    forall x, y, z :: !lt(y, x) && !lt(z, y) ==> !lt(z, x)
  }

  lemma {:induction false} AdjacentSortedIsSorted<T(!new)>(s: seq<T>, lt: (T, T) -> bool)
    requires NotLtTransitive(lt)
    requires AdjacentSorted(s, lt)
    ensures Sorted(s, lt)
  {
    if |s| > 1 {
      var t := s[..|s| - 1];
      assert AdjacentSorted(t, lt);
      AdjacentSortedIsSorted(t, lt);
      forall i | 0 <= i < |s| - 1
        ensures !lt(s[|s| - 1], s[i])
      {
        if i < |s| - 2 {
          assert !lt(s[|s| - 2], s[i]) by { assert t[|s| - 2] == s[|s| - 2] && t[i] == s[i]; }
        }
      }
    }
  }

  /** Exchanges two neighbouring elements of `a`. */
  method SwapDown<T>(a: array<T>, j: int)
    requires 0 < j < a.Length
    modifies a
    ensures a[j - 1] == old(a[j]) && a[j] == old(a[j - 1])
    ensures forall k :: 0 <= k < a.Length && k != j - 1 && k != j ==> a[k] == old(a[k])
    ensures multiset(a[..]) == old(multiset(a[..]))
  {
    a[j - 1], a[j] := a[j], a[j - 1];
  }

  /** One pass of insertion sort: moves `a[i]` down into the sorted prefix
      `a[..i]`, so that `a[..i + 1]` is sorted afterwards. */
  method SiftDown<T(!new)>(a: array<T>, i: int, lt: (T, T) -> bool)
    requires Asymmetric(lt)
    requires 0 < i < a.Length
    requires forall k :: 0 < k < i ==> !lt(a[k], a[k - 1])
    modifies a
    ensures forall k :: 0 < k <= i ==> !lt(a[k], a[k - 1])
    ensures forall k :: i < k < a.Length ==> a[k] == old(a[k])
    ensures multiset(a[..]) == old(multiset(a[..]))
  {
    var j := i;
    while j > 0 && lt(a[j], a[j - 1])
      invariant 0 <= j <= i
      invariant forall k :: 0 < k < j ==> !lt(a[k], a[k - 1])
      invariant forall k :: j < k <= i ==> !lt(a[k], a[k - 1])
      invariant 0 < j < i ==> !lt(a[j + 1], a[j - 1])
      invariant forall k :: i < k < a.Length ==> a[k] == old(a[k])
      invariant multiset(a[..]) == old(multiset(a[..]))
    {
      SwapDown(a, j);
      j := j - 1;
    }
  }

  /** `list.sort()`: rearranges `a` in place so that no element is smaller
      than its predecessor, keeping the same elements. */
  method InsertionSort<T(!new)>(a: array<T>, lt: (T, T) -> bool)
    requires Asymmetric(lt)
    modifies a
    ensures AdjacentSorted(a[..], lt)
    ensures multiset(a[..]) == old(multiset(a[..]))
  {
    if a.Length == 0 { return; }
    for i := 1 to a.Length
      invariant forall k :: 0 < k < i ==> !lt(a[k], a[k - 1])
      invariant multiset(a[..]) == old(multiset(a[..]))
    {
      SiftDown(a, i, lt);
    }
  }

  /** No element occurs twice. */
  predicate Distinct<T(==)>(s: seq<T>) {
    forall i, j :: 0 <= i < j < |s| ==> s[i] != s[j]
  }

  lemma {:induction false} DistinctOccursOnce<T>(s: seq<T>, x: T)
    requires Distinct(s)
    ensures multiset(s)[x] <= 1
  {
    if s != [] {
      var n := |s| - 1;
      assert s == s[..n] + [s[n]];
      assert Distinct(s[..n]);
      DistinctOccursOnce(s[..n], x);
      if x == s[n] {
        assert x !in s[..n];
      }
    }
  }

  lemma RepeatOccursTwice<T>(s: seq<T>, i: int, j: int)
    requires 0 <= i < j < |s| && s[i] == s[j]
    ensures multiset(s)[s[i]] >= 2
  {
    assert s == s[..i] + [s[i]] + s[i + 1..j] + [s[j]] + s[j + 1..];
  }

  /** Rearranging a sequence without repeats gives one without repeats. */
  lemma PermutationKeepsDistinct<T>(s: seq<T>, t: seq<T>)
    requires Distinct(s) && multiset(s) == multiset(t)
    ensures Distinct(t)
  {
    forall i, j | 0 <= i < j < |t| ensures t[i] != t[j] {
      if t[i] == t[j] {
        RepeatOccursTwice(t, i, j);
        DistinctOccursOnce(s, t[i]);
      }
    }
  }
}
