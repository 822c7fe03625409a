/** The binary search shared by the two symbol tables. */
module Search {
  import opened Words

  /** The last of the first `n` elements whose key is at most `q`; -1 if there is none. */
  method FloorIndex<T>(a: array<T>, n: nat, key: T -> U64, q: U64) returns (i: int)
    requires n <= a.Length
    requires forall j, k :: 0 <= j < k < n ==> key(a[j]) <= key(a[k])
    ensures -1 <= i < n
    ensures forall j :: 0 <= j <= i ==> key(a[j]) <= q
    ensures forall j :: i < j < n ==> key(a[j]) > q
  {
    var start, end := 0, n - 1;
    while start < end
      invariant 0 <= start <= end || (start == 0 && end == n - 1 == -1)
      invariant end < n
      invariant 0 < start ==> key(a[start]) <= q
      invariant forall j :: end < j < n ==> key(a[j]) > q
    {
      var mid := start + (end - start + 1) / 2;
      if key(a[mid]) <= q {
        start := mid;
      } else {
        end := mid - 1;
      }
    }
    if start == end && key(a[start]) <= q {
      return start;
    }
    return -1;
  }
}
