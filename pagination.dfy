/** `paginate_questions`: a page of ten items, cut with Python's slice rules. */
module Pagination {

  const QuestionsPerPage: nat := 10

  /** Where Python puts a slice bound `i` on a sequence of length `n`:
      a negative bound counts from the end, and both ends are clamped. */
  function SliceBound(i: int, n: nat): (k: nat)
    ensures k <= n
  {
    if i < 0 then (if i + n < 0 then 0 else i + n)
    else if i > n then n
    else i
  }

  /** Python's `s[start:end]` with a step of one. */
  function Slice<T>(s: seq<T>, start: int, end: int): (r: seq<T>)
    ensures |r| <= |s|
    ensures 0 <= start <= end <= |s| ==> r == s[start..end]
    ensures -|s| <= start <= end < 0 ==> r == s[|s| + start..|s| + end]
    ensures end <= start && (0 <= end || start < 0) ==> r == []
  {
    var a, b := SliceBound(start, |s|), SliceBound(end, |s|);
    if a < b then s[a..b] else []
  }

  function Min(a: int, b: int): int {
    if a < b then a else b
  }

  /** Page `page` of `selection`: the slice `[(page-1)*10 : (page-1)*10 + 10]`. */
  function Paginate<T>(selection: seq<T>, page: int): (r: seq<T>)
    ensures |r| <= QuestionsPerPage
    ensures page >= 1 ==>
      var start := (page - 1) * QuestionsPerPage;
      && |r| == (if |selection| <= start then 0 else Min(QuestionsPerPage, |selection| - start))
      && forall i :: 0 <= i < |r| ==> r[i] == selection[start + i]
  {
    var start := (page - 1) * QuestionsPerPage;
    Slice(selection, start, start + QuestionsPerPage)
  }

  /** Number of non-empty pages over `n` items: the ceiling of n / 10. */
  function PageCount(n: nat): nat {
    (n + QuestionsPerPage - 1) / QuestionsPerPage
  }

  /** A positive page is non-empty exactly when it is one of the first
      PageCount pages; every page past the last is empty. */
  lemma PageNonEmptyIff<T>(selection: seq<T>, page: int)
    requires page >= 1
    ensures Paginate(selection, page) != [] <==> page <= PageCount(|selection|)
  {
    var n := |selection|;
    var r := Paginate(selection, page);
    if page <= PageCount(n) {
      assert (page - 1) * QuestionsPerPage < n;
      assert |r| > 0;
    } else {
      assert (page - 1) * QuestionsPerPage >= n;
    }
  }

  /** Pages 1..k, concatenated in order. */
  function Pages<T>(selection: seq<T>, k: nat): seq<T> {
    if k == 0 then [] else Pages(selection, k - 1) + Paginate(selection, k)
  }

  lemma {:induction false} PagesArePrefix<T>(selection: seq<T>, k: nat)
    ensures Pages(selection, k) == selection[..Min(k * QuestionsPerPage, |selection|)]
  {
    if k > 0 {
      PagesArePrefix(selection, k - 1);
      var n := |selection|;
      var lo, hi := Min((k - 1) * QuestionsPerPage, n), Min(k * QuestionsPerPage, n);
      assert Paginate(selection, k) == selection[lo..hi];
      assert selection[..lo] + selection[lo..hi] == selection[..hi];
    }
  }

  /** Reading every page in turn gives back the whole listing, in order. */
  lemma AllPagesRebuildSelection<T>(selection: seq<T>)
    ensures Pages(selection, PageCount(|selection|)) == selection
  {
    var n := |selection|;
    PagesArePrefix(selection, PageCount(n));
    assert PageCount(n) * QuestionsPerPage >= n;
  }

  /** Page 0 is always empty: its slice ends at index 0. */
  lemma PageZeroIsEmpty<T>(selection: seq<T>)
    ensures Paginate(selection, 0) == []
  {
  }

  /** A negative page is counted back from the end of the listing, as
      Python reads negative slice bounds. */
  lemma NegativePageCountsFromEnd<T>(selection: seq<T>, page: int)
    requires page < 0
    requires |selection| >= (1 - page) * QuestionsPerPage
    ensures Paginate(selection, page)
         == selection[|selection| + (page - 1) * QuestionsPerPage..|selection| + page * QuestionsPerPage]
  {
  }
}
