/** Python integer division and list slicing, and the ceiling page count the
    paginated endpoints compute with them. */
module Paging {

  /** Python's `a // b`: the quotient rounded towards negative infinity. */
  function FloorDiv(a: int, b: int): (q: int)
    requires b != 0
    ensures b > 0 ==> q * b <= a < q * b + b
    ensures b < 0 ==> q * b >= a > q * b + b
  {
    if b > 0 then a / b else (-a) / (-b)
  }

  /** Where a Python slice bound lands in a list of length n. */
  function SliceBound(i: int, n: nat): (k: nat)
    ensures k <= n
    ensures 0 <= i <= n ==> k == i
    ensures i > n ==> k == n
  {
    if i < 0 then (if i + n < 0 then 0 else i + n) else if i > n then n else i
  }

  /** Python's `s[a:b]`, negative bounds counting from the end. */
  function PySlice<T>(s: seq<T>, a: int, b: int): seq<T> {
    var lo := SliceBound(a, |s|);
    var hi := SliceBound(b, |s|);
    if lo <= hi then s[lo..hi] else []
  }

  /** With non-negative bounds a slice is the run of elements from a up to b, cut at
      the end of the list, and empty when it starts at or past the end. */
  lemma PySliceNonNegative<T>(s: seq<T>, a: int, b: int)
    requires 0 <= a && 0 <= b
    ensures |PySlice(s, a, b)| <= (if b > a then b - a else 0)
    ensures a < |s| && a <= b ==> PySlice(s, a, b) == s[a..if b < |s| then b else |s|]
    ensures a >= |s| ==> PySlice(s, a, b) == []
  {
  }

  /** `(total + size - 1) // size` is the number of pages of `size` rows needed
      to hold `total` rows. */
  lemma CeilPages(total: nat, size: int)
    requires size > 0
    ensures var p := FloorDiv(total + size - 1, size);
      p >= 0 && p * size >= total && (p == 0 || (p - 1) * size < total) && (total == 0 <==> p == 0)
  {
    var p := FloorDiv(total + size - 1, size);
    assert p * size <= total + size - 1 < p * size + size;
  }

  lemma MulMonotone(a: int, b: int, c: int)
    requires a <= b && c >= 0
    ensures a * c <= b * c
  {
    assert b * c - a * c == (b - a) * c;
  }

  /** The first row of a page: `(page - 1) * page_size`. */
  function PageStart(page: int, pageSize: int): (start: int)
    ensures page >= 1 && pageSize >= 0 ==> start >= 0
  {
    (page - 1) * pageSize
  }

  /** Row k is row `k % size` of page `k / size + 1`. */
  lemma PageOffset(k: int, size: int)
    requires size >= 1 && k >= 0
    ensures PageStart(k / size + 1, size) >= 0 && 0 <= k % size < size
    ensures PageStart(k / size + 1, size) + k % size == k
  {
  }

  /** Element m of a slice of length at most `size` from a non-negative start. */
  lemma SliceAt<T>(s: seq<T>, start: int, size: int, m: int)
    requires start >= 0 && 0 <= m < size && start + m < |s|
    ensures m < |PySlice(s, start, start + size)| && PySlice(s, start, start + size)[m] == s[start + m]
  {
    PySliceNonNegative(s, start, start + size);
  }

  /** A slice holds only elements of the list. */
  lemma SliceIn<T>(s: seq<T>, a: int, b: int)
    ensures forall x :: x in PySlice(s, a, b) ==> x in s
  {
    var lo, hi := SliceBound(a, |s|), SliceBound(b, |s|);
    if lo <= hi {
      forall x | x in s[lo..hi]
        ensures x in s
      {
        var k :| lo <= k < hi && s[k] == x;
      }
    }
  }

  /** Row k lies on page `k / size + 1` and on no other. */
  lemma PageOfRow(k: int, size: int, page: int)
    requires size >= 1 && k >= 0 && PageStart(page, size) <= k < PageStart(page, size) + size
    ensures page == k / size + 1
  {
    var q := k / size;
    assert q * size <= k < q * size + size;
    assert PageStart(page, size) + size == page * size;
    assert (q + 1) * size == q * size + size;
    if page - 1 < q {
      MulMonotone(page, q, size);
    } else if page - 1 > q {
      MulMonotone(q + 1, page - 1, size);
    }
  }

  /** A page numbered past the page count starts at or after the last full page. */
  lemma PageStartPast(page: int, pages: int, pageSize: int)
    requires page > pages && pageSize >= 0
    ensures PageStart(page, pageSize) >= pages * pageSize
  {
    MulMonotone(pages, page - 1, pageSize);
  }
}
