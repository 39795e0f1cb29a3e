/** The `pagination` helper of backend/flaskr/__init__.py: format every
    record of a selection, then take the Python slice
    `[(page - 1) * 10 : (page - 1) * 10 + 10]` of the formatted list. */
module Pagination {

  const QuestionsPerPage: nat := 10

  function Min(a: int, b: int): int { if a <= b then a else b }
  function Max(a: int, b: int): int { if a <= b then b else a }

  /** How Python resolves one bound of `s[start:end]` against a list of length `n`:
      a negative bound counts from the end, and the result is clamped to `0..n`. */
  function ResolveBound(i: int, n: nat): (k: nat)
    ensures k <= n
    ensures 0 <= i ==> k == Min(i, n)
    ensures i < 0 ==> k == Max(0, n + i)
  {
    if i < 0 then (if n + i < 0 then 0 else n + i)
    else if n < i then n else i
  }

  /** `s[start:end]` with Python's semantics for a step of 1: empty when the
      resolved bounds cross. */
  function Slice<T>(s: seq<T>, start: int, end: int): (r: seq<T>)
    ensures |r| <= |s|
    ensures var lo, hi := ResolveBound(start, |s|), ResolveBound(end, |s|);
      lo <= hi ==> r == s[lo..hi]
    ensures ResolveBound(end, |s|) <= ResolveBound(start, |s|) ==> r == []
  {
    var lo, hi := ResolveBound(start, |s|), ResolveBound(end, |s|);
    if lo < hi then s[lo..hi] else []
  }

  /** `[question.format() for question in selection]` */
  function Formatted<T, R>(selection: seq<T>, format: T -> R): (r: seq<R>)
    ensures |r| == |selection|
    ensures forall i :: 0 <= i < |selection| ==> r[i] == format(selection[i])
  {
    seq(|selection|, i requires 0 <= i < |selection| => format(selection[i]))
  }

  /** The formatted records of page `page` (1-indexed) of `selection`. */
  function Paginate<T, R>(selection: seq<T>, page: int, format: T -> R): (r: seq<R>)
    ensures |r| <= QuestionsPerPage
  {
    var start := (page - 1) * QuestionsPerPage;
    var end := start + QuestionsPerPage;
    Slice(Formatted(selection, format), start, end)
  }

  /** A page of 1 or more is the window of formatted records that starts at
      `(page - 1) * 10`, clamped to the length of the selection, in the original order. */
  lemma PositivePageIsWindow<T, R>(selection: seq<T>, page: int, format: T -> R)
    requires page >= 1
    ensures var n := |selection|;
      var lo, hi := Min((page - 1) * QuestionsPerPage, n), Min(page * QuestionsPerPage, n);
      var r := Paginate(selection, page, format);
      && |r| == hi - lo
      && (forall i :: 0 <= i < |r| ==> r[i] == format(selection[(page - 1) * QuestionsPerPage + i]))
  {
  }

  /** Every record on a page is the formatted form of a record of the selection. */
  lemma PageDrawsFromSelection<T, R>(selection: seq<T>, page: int, format: T -> R)
    ensures forall x :: x in Paginate(selection, page, format) ==>
              exists i :: 0 <= i < |selection| && x == format(selection[i])
  {
    var f := Formatted(selection, format);
    var n := |selection|;
    var start := (page - 1) * QuestionsPerPage;
    var lo, hi := ResolveBound(start, n), ResolveBound(start + QuestionsPerPage, n);
    forall x | x in Paginate(selection, page, format)
      ensures exists i :: 0 <= i < n && x == format(selection[i])
    {
      var k :| 0 <= k < hi - lo && f[lo..hi][k] == x;
      assert x == format(selection[lo + k]);
    }
  }

  /** When a page is empty, for every page number: a positive page is empty
      exactly when it starts at or past the end, page 0 is always empty, and a
      negative page is empty exactly when its end, counted back from the
      length, reaches the front. */
  lemma EmptyPage<T, R>(selection: seq<T>, page: int, format: T -> R)
    ensures var n := |selection|;
      Paginate(selection, page, format) == [] <==>
        if page >= 1 then (page - 1) * QuestionsPerPage >= n
        else if page == 0 then true
        else n + page * QuestionsPerPage <= 0
  {
    var f := Formatted(selection, format);
    var n := |selection|;
    var start := (page - 1) * QuestionsPerPage;
    var lo, hi := ResolveBound(start, n), ResolveBound(start + QuestionsPerPage, n);
    if lo < hi {
      assert Paginate(selection, page, format) == f[lo..hi];
      assert |f[lo..hi]| > 0;
    }
  }

  /** Page 0 asks for `[-10:0]`: the end bound 0 resolves to 0, so the page is
      empty whatever the selection. */
  lemma PageZeroIsEmpty<T, R>(selection: seq<T>, format: T -> R)
    ensures Paginate(selection, 0, format) == []
  {
  }

  /** A negative page is not rejected: its negative bounds count back from the
      end of the list, as Python slicing does. */
  lemma NegativePageCountsFromEnd<T, R>(selection: seq<T>, page: int, format: T -> R)
    requires page < 0
    ensures var n := |selection|;
      var lo, hi := Max(0, n + (page - 1) * QuestionsPerPage), Max(0, n + page * QuestionsPerPage);
      Paginate(selection, page, format) == Formatted(selection, format)[lo..hi]
  {
  }

  /** When the selection fills exactly `k` pages, the negative page `page`
      shows the same records as the positive page `k + page`. */
  lemma NegativePageAliasesPositive<T, R>(selection: seq<T>, k: nat, page: int, format: T -> R)
    requires |selection| == k * QuestionsPerPage
    requires page < 0 && k + page >= 1
    ensures Paginate(selection, page, format) == Paginate(selection, k + page, format)
  {
  }

  /** Pages 1 to `k`, one after the other. */
  function FirstPages<T, R>(selection: seq<T>, k: nat, format: T -> R): seq<R>
  {
    if k == 0 then [] else FirstPages(selection, k - 1, format) + Paginate(selection, k, format)
  }

  /** Pages 1 to `k` together hold the first `min(len, 10 * k)` formatted
      records, in order: no record is skipped or repeated between pages. */
  lemma {:induction false} FirstPagesArePrefix<T, R>(selection: seq<T>, k: nat, format: T -> R)
    ensures FirstPages(selection, k, format)
         == Formatted(selection, format)[..Min(|selection|, k * QuestionsPerPage)]
  {
    var f := Formatted(selection, format);
    if k > 0 {
      FirstPagesArePrefix(selection, k - 1, format);
      var n := |selection|;
      var a, b := Min(n, (k - 1) * QuestionsPerPage), Min(n, k * QuestionsPerPage);
      PositivePageIsWindow(selection, k, format);
      assert Paginate(selection, k, format) == f[a..b];
      assert f[..a] + f[a..b] == f[..b];
    }
  }

  /** Every record of the selection is shown by one of the pages 1 to
      `ceil(len / 10)`. */
  lemma {:induction false} PagesCoverSelection<T, R>(selection: seq<T>, format: T -> R)
    ensures var k := (|selection| + QuestionsPerPage - 1) / QuestionsPerPage;
      FirstPages(selection, k, format) == Formatted(selection, format)
  {
    var k := (|selection| + QuestionsPerPage - 1) / QuestionsPerPage;
    FirstPagesArePrefix(selection, k, format);
    assert Min(|selection|, k * QuestionsPerPage) == |selection|;
  }
}
