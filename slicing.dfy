/**
 * Python list slicing `s[i:j]` and the ten-per-page window the trivia
 * handlers cut out of a result list with it.
 */
module Slicing {

  /** Number of questions on one page (the handlers' local `q_page`). */
  const PerPage := 10

  function Min(a: int, b: int): int { if a <= b then a else b }

  function Max(a: int, b: int): int { if a <= b then b else a }

  /** Python's normalisation of one slice bound against a list of length n. */
  function Bound(i: int, n: nat): (b: nat)
    ensures b <= n
  {
    if i < 0 then Max(i + n, 0) else Min(i, n)
  }

  /** `s[i:j]` in Python: negative bounds count from the end, all bounds are clamped. */
  function Slice<T>(s: seq<T>, i: int, j: int): (r: seq<T>)
    ensures |r| <= |s|
    ensures 0 <= i <= j ==> r == s[Min(i, |s|)..Min(j, |s|)]
    ensures i <= j < 0 ==> r == s[Max(|s| + i, 0)..Max(|s| + j, 0)]
    ensures 0 <= j <= i || j <= i < 0 ==> r == []
  {
    var a, b := Bound(i, |s|), Bound(j, |s|);
    if a < b then s[a..b] else []
  }

  /**
   * `s[start:end]` with `start = (page - 1) * 10` and `end = start + 10`.
   * For a positive page this is the page-th block of ten; page 0 is always
   * empty; a negative page counts its window back from the end of the list,
   * as Python's negative indices do.
   */
  function Page<T>(s: seq<T>, page: int): (r: seq<T>)
    ensures page >= 1 ==> r == s[Min((page - 1) * PerPage, |s|)..Min(page * PerPage, |s|)]
    ensures page == 0 ==> r == []
    ensures page < 0 ==> r == s[Max(|s| + (page - 1) * PerPage, 0)..Max(|s| + page * PerPage, 0)]
    ensures |r| <= PerPage
  {
    var start := (page - 1) * PerPage;
    Slice(s, start, start + PerPage)
  }

  /** A positive page is empty exactly when it starts at or past the end of the list. */
  lemma PageEmptyIff<T>(s: seq<T>, page: int)
    requires page >= 1
    ensures Page(s, page) == [] <==> (page - 1) * PerPage >= |s|
  {
  }

  /** The element at position i of the list is element i % 10 of page i / 10 + 1. */
  lemma PageOf<T>(s: seq<T>, i: int)
    requires 0 <= i < |s|
    ensures i % PerPage < |Page(s, i / PerPage + 1)|
    ensures Page(s, i / PerPage + 1)[i % PerPage] == s[i]
  {
  }

  /** The pages 1..k, concatenated in order. */
  function FirstPages<T>(s: seq<T>, k: nat): seq<T>
  {
    if k == 0 then [] else FirstPages(s, k - 1) + Page(s, k)
  }

  /**
   * Pages 1..k tile the front of the list without gaps or overlaps: walking
   * the pages in order visits every question once, in list order.
   */
  lemma {:induction false} FirstPagesArePrefix<T>(s: seq<T>, k: nat)
    ensures FirstPages(s, k) == s[..Min(k * PerPage, |s|)]
  {
    if k > 0 {
      FirstPagesArePrefix(s, k - 1);
      var lo, hi := Min((k - 1) * PerPage, |s|), Min(k * PerPage, |s|);
      assert s[..lo] + s[lo..hi] == s[..hi];
    }
  }
}
