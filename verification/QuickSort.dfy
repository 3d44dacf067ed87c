/** The in-place quicksort of file-test.cpp: two pointers, duplicates swapped, recursion on both sides. */
module QuickSort {

  predicate SortedIn(a: seq<int>, lo: int, hi: int) {
    forall x, y | 0 <= lo <= x < y <= hi < |a| :: a[x] <= a[y]
  }

  predicate Parted(a: seq<int>, lo: int, j: int, hi: int)
    requires 0 <= lo <= j <= hi < |a|
  {
    && (forall x | lo <= x < j :: a[x] <= a[j])
    && (forall x | j < x <= hi :: a[x] >= a[j])
  }

  /** b is a with the elements from lo to hi rearranged and nothing else changed. */
  ghost predicate Rearranged(a: seq<int>, b: seq<int>, lo: int, hi: int)
    requires 0 <= lo <= hi + 1 <= |a|
  {
    && |b| == |a|
    && b[..lo] == a[..lo]
    && b[hi + 1..] == a[hi + 1..]
    && multiset(b[lo..hi + 1]) == multiset(a[lo..hi + 1])
  }

  lemma RearrangedTrans(a: seq<int>, b: seq<int>, c: seq<int>, lo: int, hi: int)
    requires 0 <= lo <= hi + 1 <= |a| && Rearranged(a, b, lo, hi) && Rearranged(b, c, lo, hi)
    ensures Rearranged(a, c, lo, hi)
  {
  }

  lemma RearrangedRefl(a: seq<int>, lo: int, hi: int)
    requires 0 <= lo <= hi + 1 <= |a|
    ensures Rearranged(a, a, lo, hi)
  {
  }

  lemma RearrangedOutside(a: seq<int>, b: seq<int>, lo: int, hi: int)
    requires 0 <= lo <= hi + 1 <= |a| && Rearranged(a, b, lo, hi)
    ensures |b| == |a| && forall x | 0 <= x < |a| && !(lo <= x <= hi) :: b[x] == a[x]
  {
  }

  /** Rearranging a part of the range rearranges the range. */
  lemma RearrangedWiden(a: seq<int>, b: seq<int>, lo: int, hi: int, lo': int, hi': int)
    requires 0 <= lo <= lo' <= hi' + 1 <= hi + 1 <= |a| && Rearranged(a, b, lo', hi')
    ensures Rearranged(a, b, lo, hi)
  {
    assert b[..lo] == b[..lo'][..lo] && a[..lo] == a[..lo'][..lo];
    assert b[hi + 1..] == b[hi' + 1..][hi - hi'..] && a[hi + 1..] == a[hi' + 1..][hi - hi'..];
    forall s: seq<int> | |s| == |a|
      ensures s[lo..hi + 1] == s[..lo'][lo..] + s[lo'..hi' + 1] + s[hi' + 1..][..hi - hi']
    {
    }
  }

  lemma SwapRearranges(a: seq<int>, i: int, j: int, lo: int, hi: int)
    requires 0 <= lo <= i <= j <= hi < |a|
    ensures Rearranged(a, a[i := a[j]][j := a[i]], lo, hi)
  {
  }

  /** What holds of every element of a range survives a rearrangement of the range. */
  lemma PropertyKept(a: seq<int>, b: seq<int>, lo: int, hi: int, p: int -> bool)
    requires 0 <= lo <= hi + 1 <= |a| && Rearranged(a, b, lo, hi)
    requires forall x | lo <= x <= hi :: p(a[x])
    ensures forall x | lo <= x <= hi :: p(b[x])
  {
    forall x | lo <= x <= hi ensures p(b[x]) {
      assert b[x] == b[lo..hi + 1][x - lo];
      assert b[x] in multiset(a[lo..hi + 1]);
    }
  }

  /** Moves the first element of the range to its place: smaller or equal before it, larger or equal behind. */
  method Partition(arr: array<int>, lo: int, hi: int) returns (j: int, ghost compares: nat)
    requires 0 <= lo < hi < arr.Length
    modifies arr
    ensures lo <= j <= hi && Rearranged(old(arr[..]), arr[..], lo, hi)
    ensures Parted(arr[..], lo, j, hi)
    ensures compares <= (hi - lo + 1) + 2
  {
    var midVal := arr[lo];
    var i := lo + 1;
    j, compares := hi, 0;
    hide Rearranged;
    RearrangedRefl(arr[..], lo, hi);
    while true
      invariant lo + 1 <= i <= hi + 1 && lo <= j <= hi && i <= j + 2
      invariant Rearranged(old(arr[..]), arr[..], lo, hi) && arr[lo] == midVal
      invariant forall x | lo < x < i :: arr[x] <= midVal
      invariant forall x | j < x <= hi :: arr[x] >= midVal
      invariant compares <= (i - (lo + 1)) + (hi - j)
      decreases j - i + 2
    {
      while i <= hi && arr[i] < midVal
        invariant lo + 1 <= i <= hi + 1 && i <= j + 2
        invariant forall x | lo < x < i :: arr[x] <= midVal
        invariant compares <= (i - (lo + 1)) + (hi - j)
      {
        i, compares := i + 1, compares + 1;
      }
      compares := if i <= hi then compares + 1 else compares;
      while j >= lo + 1 && arr[j] > midVal
        invariant lo <= j <= hi && i <= j + 2
        invariant forall x | j < x <= hi :: arr[x] >= midVal
        invariant compares <= (i - (lo + 1)) + (hi - j) + 1
      {
        j, compares := j - 1, compares + 1;
      }
      compares := if j >= lo + 1 then compares + 1 else compares;
      if i > j { break; }
      Swap(arr, i, j, lo, hi, old(arr[..]));
      i, j := i + 1, j - 1;
    }
    Swap(arr, lo, j, lo, hi, old(arr[..]));
  }

  method Swap(arr: array<int>, i: int, j: int, ghost lo: int, ghost hi: int, ghost start: seq<int>)
    requires 0 <= lo <= i <= j <= hi < arr.Length == |start| && Rearranged(start, arr[..], lo, hi)
    modifies arr
    ensures arr[i] == old(arr[j]) && arr[j] == old(arr[i])
    ensures forall x | 0 <= x < arr.Length && x != i && x != j :: arr[x] == old(arr[x])
    ensures Rearranged(start, arr[..], lo, hi)
  {
    hide Rearranged;
    var tmpVal := arr[i];
    arr[i] := arr[j];
    arr[j] := tmpVal;
    assert arr[..] == old(arr[..])[i := old(arr[j])][j := old(arr[i])];
    SwapRearranges(old(arr[..]), i, j, lo, hi);
    RearrangedTrans(start, old(arr[..]), arr[..], lo, hi);
  }

  /** The most element comparisons n elements can take. */
  function CompareLimit(n: nat): nat {
    n * (n + 5) / 2
  }

  lemma CompareBound(left: nat, right: nat, a: nat, b: nat)
    requires a <= CompareLimit(left) && b <= CompareLimit(right)
    ensures var n := left + 1 + right; n + 2 + a + b <= CompareLimit(n)
  {
  }

  /** What a sorted range is: ascending, the same elements as before, and nothing else moved. */
  lemma SortMeans(a: seq<int>, b: seq<int>, lo: int, hi: int)
    requires 0 <= lo <= hi + 1 <= |a| && Rearranged(a, b, lo, hi) && SortedIn(b, lo, hi)
    ensures |b| == |a| && forall x, y | lo <= x <= y <= hi :: b[x] <= b[y]
    ensures multiset(b) == multiset(a) && multiset(b[lo..hi + 1]) == multiset(a[lo..hi + 1])
    ensures forall x | 0 <= x < lo || hi < x < |a| :: b[x] == a[x]
    ensures CompareLimit(hi + 1 - lo) == (hi + 1 - lo) * (hi + 6 - lo) / 2
  {
    assert a == a[..lo] + a[lo..hi + 1] + a[hi + 1..] && b == b[..lo] + b[lo..hi + 1] + b[hi + 1..];
    forall x | 0 <= x < lo || hi < x < |a| ensures b[x] == a[x] {
      assert if x < lo then b[x] == b[..lo][x] else b[x] == b[hi + 1..][x - hi - 1];
    }
  }

  /** Sorting both sides of a partition sorts the range. */
  lemma SortedAround(start: seq<int>, parted: seq<int>, mid: seq<int>, end: seq<int>, lo: int, j: int, hi: int)
    requires 0 <= lo <= j <= hi < |start| == |parted| == |mid| == |end|
    requires Rearranged(start, parted, lo, hi) && Parted(parted, lo, j, hi)
    requires Rearranged(parted, mid, lo, j - 1) && SortedIn(mid, lo, j - 1)
    requires Rearranged(mid, end, j + 1, hi) && SortedIn(end, j + 1, hi)
    ensures Rearranged(start, end, lo, hi) && SortedIn(end, lo, hi)
  {
    hide Rearranged;
    RearrangedWiden(parted, mid, lo, hi, lo, j - 1);
    RearrangedWiden(mid, end, lo, hi, j + 1, hi);
    RearrangedTrans(start, parted, mid, lo, hi);
    RearrangedTrans(start, mid, end, lo, hi);
    RearrangedOutside(parted, mid, lo, j - 1);
    RearrangedOutside(mid, end, j + 1, hi);
    PropertyKept(parted, mid, lo, j - 1, v => v <= parted[j]);
    PropertyKept(mid, end, j + 1, hi, v => v >= parted[j]);
  }

  /**
   Sorts the range, rearranging only it. Counted with the loop tests, n elements take at most n(n+5)/2
   comparisons of elements.
   */
  method Sort(arr: array<int>, lo: int, hi: int) returns (ghost compares: nat)
    requires 0 <= lo <= hi + 1 <= arr.Length
    modifies arr
    ensures Rearranged(old(arr[..]), arr[..], lo, hi) && SortedIn(arr[..], lo, hi)
    ensures compares <= CompareLimit(hi - lo + 1)
    decreases hi - lo
  {
    hide Rearranged, CompareLimit;
    compares := 0;
    if lo < hi {
      var j;
      j, compares := Partition(arr, lo, hi);
      ghost var parted := arr[..];
      ghost var left := Sort(arr, lo, j - 1);
      ghost var mid := arr[..];
      ghost var right := Sort(arr, j + 1, hi);
      SortedAround(old(arr[..]), parted, mid, arr[..], lo, j, hi);
      CompareBound(j - lo, hi - j, left, right);
      compares := compares + left + right;
    } else {
      RearrangedRefl(arr[..], lo, hi);
    }
  }
}
