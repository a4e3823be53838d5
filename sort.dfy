/**
 * sort.Sort and sort.Strings, which the core calls on its slices: an in-place
 * sort of an array by a Less relation. Go asks of Less that it be a strict
 * weak ordering; after sorting no later element is Less than an earlier one.
 */
module Sort {

  /** Less is asymmetric and "not less" is transitive: Go's strict weak ordering. */
  ghost predicate StrictWeakOrder<T(!new)>(less: (T, T) -> bool) {
    && (forall x, y :: less(x, y) ==> !less(y, x))
    && (forall x, y, z :: !less(y, x) && !less(z, y) ==> !less(z, x))
  }

  /** No element is Less than one before it. */
  ghost predicate SortedBy<T>(s: seq<T>, less: (T, T) -> bool) {
    forall i, j | 0 <= i < j < |s| :: !less(s[j], s[i])
  }

  /** Insertion sort: the array ends sorted by less and holds the same elements. */
  method SortBy<T(!new)>(a: array<T>, less: (T, T) -> bool)
    requires StrictWeakOrder(less)
    modifies a
    ensures SortedBy(a[..], less)
    ensures multiset(a[..]) == multiset(old(a[..]))
  {
    var i := 0;
    while i < a.Length
      invariant 0 <= i <= a.Length
      invariant forall p, q | 0 <= p < q < i :: !less(a[q], a[p])
      invariant multiset(a[..]) == multiset(old(a[..]))
    {
      InsertLast(a, i, less);
      i := i + 1;
    }
  }

  /** Moves a[i] left into the sorted prefix a[..i], so that a[..i+1] is sorted. */
  method InsertLast<T(!new)>(a: array<T>, i: int, less: (T, T) -> bool)
    requires StrictWeakOrder(less)
    requires 0 <= i < a.Length
    requires forall p, q | 0 <= p < q < i :: !less(a[q], a[p])
    modifies a
    ensures forall p, q | 0 <= p < q <= i :: !less(a[q], a[p])
    ensures multiset(a[..]) == multiset(old(a[..]))
  {
    var j := i;
    while j > 0 && less(a[j], a[j - 1])
      invariant 0 <= j <= i
      invariant forall p, q | 0 <= p < q <= i && p != j && q != j :: !less(a[q], a[p])
      invariant forall q | j < q <= i :: !less(a[q], a[j])
      invariant multiset(a[..]) == multiset(old(a[..]))
    {
      Swap(a, j - 1, j);
      j := j - 1;
    }
    forall p | 0 <= p < j
      ensures !less(a[j], a[p])
    {
      if p < j - 1 {
        assert !less(a[j - 1], a[p]);
      }
    }
  }

  method Swap<T>(a: array<T>, i: int, j: int)
    requires 0 <= i < j < a.Length
    modifies a
    ensures a[..] == old(a[..])[i := old(a[j])][j := old(a[i])]
    ensures multiset(a[..]) == multiset(old(a[..]))
  {
    a[i], a[j] := a[j], a[i];
  }
}
