/**
 In-place ordering of an array, standing for std::sort (all positions) and
 std::nth_element (the positions up to and including the n-th).
 */
module Sorting {

  /** Growing a prefix by one element (kept out of larger proofs, where it is costly). */
  lemma PrefixStep<T>(s: seq<T>, i: nat)
    requires i < |s|
    ensures s[..i + 1] == s[..i] + [s[i]]
  {
  }

  /** The prefix of full length is the whole sequence. */
  lemma WholePrefix<T>(s: seq<T>)
    ensures s[..|s|] == s
  {
  }

  /** `le` is total and transitive: a total preorder. */
  ghost predicate TotalPreorder<T(!new)>(le: (T, T) -> bool)
  {
    && (forall x, y :: le(x, y) || le(y, x))
    && (forall x, y, z :: le(x, y) && le(y, z) ==> le(x, z))
  }

  /** The position of a least element of a[lo..]. */
  method MinIndex<T(!new)>(a: array<T>, lo: nat, le: (T, T) -> bool) returns (m: nat)
    requires lo < a.Length
    requires TotalPreorder(le)
    ensures lo <= m < a.Length
    ensures forall q :: lo <= q < a.Length ==> le(a[m], a[q])
  {
    m := lo;
    var j := lo + 1;
    while j < a.Length
      invariant lo <= m < j <= a.Length
      invariant forall q :: lo <= q < j ==> le(a[m], a[q])
    {
      if !le(a[m], a[j]) {
        forall q | lo <= q < j ensures le(a[j], a[q]) {
          assert le(a[j], a[m]) && le(a[m], a[q]);
        }
        m := j;
      }
      j := j + 1;
    }
  }

  method Swap<T>(a: array<T>, i: nat, j: nat)
    requires i < a.Length && j < a.Length
    modifies a
    ensures a[..] == old(a[..])[i := old(a[j])][j := old(a[i])]
    ensures multiset(a[..]) == multiset(old(a[..]))
  {
    a[i], a[j] := a[j], a[i];
  }

  /**
   Selection sort stopped after `k` positions: afterwards a[..k] is in
   ascending order and each of its elements is at or below every later
   element; the array holds the same elements as before.
   */
  method SortPrefix<T(!new)>(a: array<T>, k: nat, le: (T, T) -> bool)
    requires k <= a.Length
    requires TotalPreorder(le)
    modifies a
    ensures multiset(a[..]) == multiset(old(a[..]))
    ensures forall i, j :: 0 <= i < j < a.Length && i < k ==> le(a[i], a[j])
  {
    var i := 0;
    while i < k
      invariant 0 <= i <= k
      invariant multiset(a[..]) == multiset(old(a[..]))
      invariant forall p, q :: 0 <= p < q < a.Length && p < i ==> le(a[p], a[q])
    {
      var m := MinIndex(a, i, le);
      ghost var before := a[..];
      Swap(a, i, m);
      forall p, q | 0 <= p < q < a.Length && p < i + 1 ensures le(a[p], a[q]) {
        assert a[p] == before[p] || p == i;
        if p == i {
          assert a[p] == before[m];
          if q == m {
            assert a[q] == before[i];
          } else {
            assert a[q] == before[q];
          }
        } else {
          assert a[p] == before[p];
          if q == i {
            assert a[q] == before[m];
          } else if q == m {
            assert a[q] == before[i];
          } else {
            assert a[q] == before[q];
          }
        }
      }
      i := i + 1;
    }
  }
}
