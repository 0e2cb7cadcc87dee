/** Offset paging as Spring Data's PageRequest does it: page `p` of size
    `n` holds the items at positions p*n .. p*n + n - 1 of the listing. */
module Paging {
  import JavaText

  function Min(a: int, b: int): int { if a <= b then a else b }

  /** The content of page `page` of size `size` over `xs`. */
  function PageOf<T>(xs: seq<T>, page: nat, size: nat): (r: seq<T>)
    requires size > 0
    ensures page * size >= |xs| ==> |r| == 0
    ensures page * size < |xs| ==> |r| == Min(size, |xs| - page * size)
    ensures |r| <= size
    ensures forall k :: 0 <= k < |r| ==> r[k] == xs[page * size + k]
    ensures forall x :: x in r ==> x in xs
  {
    var offset := page * size;
    if offset >= |xs| then [] else xs[offset..Min(offset + size, |xs|)]
  }

  /** Spring Data JPA hands the query the offset `page * size` as a Java
      int and refuses, with InvalidDataAccessApiUsageException, an offset
      beyond Integer.MAX_VALUE; the page is never read. */
  predicate OffsetFits(page: int, size: int) {
    page * size <= JavaText.INT_MAX
  }

  /** A product of two non-negative factors is non-negative. */
  lemma MulNonneg(a: int, b: int)
    requires a >= 0 && b >= 0
    ensures a * b >= 0
  {
  }

  /** Euclidean division of a position by a positive page size. */
  lemma {:induction false} DivBounds(k: nat, n: nat)
    requires n > 0
    ensures 0 <= k / n <= k && (k / n) * n <= k && k % n < n && (k / n) * n + k % n == k
  {
    var q, m := k / n, k % n;
    assert q * n + m == k && 0 <= m < n;
    MulNonneg(q, n - 1);
    assert q * (n - 1) == q * n - q;
  }

  /** Every item lies on exactly one page: item k is entry k % n of page k / n. */
  lemma {:induction false} PagesTile<T>(xs: seq<T>, n: nat, k: nat)
    requires n > 0 && k < |xs|
    ensures 0 <= k / n <= k && (k / n) * n <= k
    ensures var p := PageOf(xs, k / n, n);
            k % n < |p| && p[k % n] == xs[k]
  {
    DivBounds(k, n);
    var q, m := k / n, k % n;
    assert q * n + m == k;
    var p := PageOf(xs, q, n);
    assert m < |p|;
    assert p[m] == xs[q * n + m];
  }

  /** Entry j of page p is item p * n + j of the listing. */
  lemma PageEntry<T>(xs: seq<T>, p: nat, n: nat, j: nat)
    requires j < n && p * n + j < |xs|
    ensures j < |PageOf(xs, p, n)| && PageOf(xs, p, n)[j] == xs[p * n + j]
  {
  }

  /** PageEntry with the table position named: entry `j` of page `p` is
      entry `k` of the table when `k` is `p * n + j`. */
  lemma {:induction false} PageEntryAt<T>(xs: seq<T>, p: nat, n: nat, j: nat, k: nat)
    requires j < n && p * n + j == k && k < |xs|
    ensures j < |PageOf(xs, p, n)| && PageOf(xs, p, n)[j] == xs[k]
  {
    PageEntry(xs, p, n, j);
  }

  /** A page past the end is empty, and every earlier page is full. */
  lemma {:induction false} FullPagesBeforeTheLast<T>(xs: seq<T>, n: nat, page: nat)
    requires n > 0
    ensures (page + 1) * n <= |xs| ==> |PageOf(xs, page, n)| == n
    ensures page * n >= |xs| ==> PageOf(xs, page, n) == []
  {
    assert (page + 1) * n == page * n + n;
  }
}
