/** The page-window rule of the paginator: for every entry of the page list,
    whether its number is shown, an ellipsis stands in its place, or it is
    hidden. Indices are 0-based (`idx`), page labels and `active` are 1-based,
    exactly as in the component's arithmetic. */
module PageWindow {

  /** The three-valued display flag of a page: `true`, `false` and `null`. */
  datatype Vis = Show | Ellipsis | Hidden

  /** One page of the paginator: its label and how it is displayed. */
  datatype Page = Page(displayIndex: int, displayValue: Vis)

  /** First disjunction of the rule: the entry's number is displayed.
      First page, last page, active page, the context window around the
      active page, and the two pages shown so that an ellipsis never covers
      a single page. */
  predicate ShowsNumber(p2show: int, total: int, active: int, idx: int)
  {
    idx == 0 ||
    idx == total - 1 ||
    idx + 1 == active ||
    (idx < active + p2show && idx + 1 >= active - p2show) ||
    (idx == total - 2 && total - active == p2show + 2) ||
    (idx == 1 && active - p2show == 3)
  }

  /** Second disjunction: the page just right of the context window, or the
      page just left of it, becomes "...". */
  predicate ShowsEllipsis(p2show: int, total: int, active: int, idx: int)
  {
    idx == active + p2show || idx == active - (p2show + 2)
  }

  /** The display value the rule gives entry `idx`. */
  function Decide(p2show: int, total: int, active: int, idx: int): Vis
  {
    if ShowsNumber(p2show, total, active, idx) then Show
    else if ShowsEllipsis(p2show, total, active, idx) then Ellipsis
    else Hidden
  }

  /** The page list after one pass of the rule: every entry keeps its label
      and gets the value `Decide` gives its position. */
  function Render(pages: seq<Page>, p2show: int, total: int, active: int): (r: seq<Page>)
    ensures |r| == |pages|
    ensures forall k :: 0 <= k < |r| ==> r[k].displayIndex == pages[k].displayIndex
  {
    seq(|pages|, k requires 0 <= k < |pages| =>
      pages[k].(displayValue := Decide(p2show, total, active, k)))
  }

  /** The `n` fresh entries initialisation pushes: labels 1..n, not displayed. */
  function Numbered(n: nat): (r: seq<Page>)
    ensures |r| == n
    ensures forall k :: 0 <= k < n ==> r[k] == Page(k + 1, Hidden)
  {
    seq(n, k requires 0 <= k < n => Page(k + 1, Hidden))
  }

  /** Number of entries displayed as "...". */
  function EllipsisCount(pages: seq<Page>): nat
  {
    if pages == [] then 0
    else (if pages[0].displayValue == Ellipsis then 1 else 0) + EllipsisCount(pages[1..])
  }

  // ---------------------------------------------------------------------
  // Properties of the rule
  // ---------------------------------------------------------------------

  /** First, last and active pages are always shown, and so is every page
      whose label lies in [active - p2show, active + p2show]. */
  lemma AnchorsAndWindowShown(pages: seq<Page>, p2show: int, total: int, active: int)
    requires |pages| == total && 1 <= active <= total
    ensures Render(pages, p2show, total, active)[0].displayValue == Show
    ensures Render(pages, p2show, total, active)[total - 1].displayValue == Show
    ensures Render(pages, p2show, total, active)[active - 1].displayValue == Show
    ensures forall k :: 0 <= k < total && active - p2show <= k + 1 <= active + p2show ==>
      Render(pages, p2show, total, active)[k].displayValue == Show
  {
  }

  /** Only two pages can be an ellipsis: label active + p2show + 1 and label
      active - p2show - 1, and each only when the rule does not already show
      it. */
  lemma EllipsisCandidates(p2show: int, total: int, active: int, idx: int)
    ensures Decide(p2show, total, active, idx) == Ellipsis <==>
      !ShowsNumber(p2show, total, active, idx) &&
      (idx + 1 == active + p2show + 1 || idx + 1 == active - p2show - 1)
  {
  }

  /** An ellipsis never stands in for a single page: a right-hand ellipsis
      sits at label total - 2 or below and the page after it is hidden; a
      left-hand one sits at label 3 or above and the page before it is
      hidden. Together with the always-shown first and last pages, each
      ellipsis therefore covers a run of at least two pages. */
  lemma EllipsisCoversTwoPages(p2show: int, total: int, active: int, idx: int)
    requires 1 <= active <= total && p2show >= -1
    requires 0 <= idx < total && Decide(p2show, total, active, idx) == Ellipsis
    ensures idx + 1 > active ==>
      idx + 1 <= total - 2 && Decide(p2show, total, active, idx + 1) == Hidden
    ensures idx + 1 < active ==>
      idx + 1 >= 3 && Decide(p2show, total, active, idx - 1) == Hidden
    ensures idx + 1 != active
  {
  }

  /** With p2show >= 0 every hidden page is marked: a hidden page right of
      the active one lies beyond the right-hand ellipsis, a hidden page left
      of it lies before the left-hand ellipsis. */
  lemma HiddenPagesBehindEllipsis(p2show: int, total: int, active: int, idx: int)
    requires 1 <= active <= total && p2show >= 0
    requires 0 <= idx < total && Decide(p2show, total, active, idx) == Hidden
    ensures idx + 1 > active ==>
      active + p2show < idx && Decide(p2show, total, active, active + p2show) == Ellipsis
    ensures idx + 1 < active ==>
      idx < active - p2show - 2 && Decide(p2show, total, active, active - p2show - 2) == Ellipsis
  {
  }

  /** With p2show == -1 (the smallest accepted value) the rule shows only the
      first, last and active pages and produces no ellipsis at all. */
  lemma NoContextNoEllipsis(total: int, active: int, idx: int)
    requires 1 <= active <= total && 0 <= idx < total
    ensures Decide(-1, total, active, idx) != Ellipsis
    ensures Decide(-1, total, active, idx) == Show <==>
      idx == 0 || idx == total - 1 || idx + 1 == active
  {
  }

  /** Counting ellipses distributes over concatenation. */
  lemma {:induction false} EllipsisCountAppend(a: seq<Page>, b: seq<Page>)
    ensures EllipsisCount(a + b) == EllipsisCount(a) + EllipsisCount(b)
  {
    if a == [] {
      assert a + b == b;
    } else {
      assert (a + b)[1..] == a[1..] + b;
      EllipsisCountAppend(a[1..], b);
    }
  }

  /** A list whose ellipses can only be at position `x` holds at most one. */
  lemma {:induction false} EllipsisCountAtMostOne(s: seq<Page>, x: int)
    requires forall j :: 0 <= j < |s| && s[j].displayValue == Ellipsis ==> j == x
    ensures EllipsisCount(s) <= 1
    ensures x < 0 || x >= |s| ==> EllipsisCount(s) == 0
  {
    if s != [] {
      forall j | 0 <= j < |s[1..]| && s[1..][j].displayValue == Ellipsis
        ensures j == x - 1
      {
        assert s[j + 1] == s[1..][j];
      }
      EllipsisCountAtMostOne(s[1..], x - 1);
    }
  }

  /** At most one ellipsis left of the active page and at most one right of
      it, hence at most two in the whole list. */
  lemma EllipsisPerSide(pages: seq<Page>, p2show: int, total: int, active: int)
    requires 1 <= active <= |pages| && p2show >= -1
    ensures EllipsisCount(Render(pages, p2show, total, active)[..active - 1]) <= 1
    ensures EllipsisCount(Render(pages, p2show, total, active)[active - 1..]) <= 1
    ensures EllipsisCount(Render(pages, p2show, total, active)) <= 2
  {
    var r := Render(pages, p2show, total, active);
    var left, right := r[..active - 1], r[active - 1..];
    assert r == left + right;
    EllipsisCountAppend(left, right);
    EllipsisCountAtMostOne(left, active - p2show - 2);
    forall j | 0 <= j < |right| && right[j].displayValue == Ellipsis
      ensures j == p2show + 1
    {
      assert right[j] == r[j + active - 1];
    }
    EllipsisCountAtMostOne(right, p2show + 1);
  }

  /** The rewrite is idempotent, and its result depends only on the labels
      and on (p2show, total, active): whatever values the entries held before
      are overwritten. */
  lemma RenderIgnoresOldValues(a: seq<Page>, b: seq<Page>, p2show: int, total: int, active: int)
    requires |a| == |b|
    requires forall k :: 0 <= k < |a| ==> a[k].displayIndex == b[k].displayIndex
    ensures Render(a, p2show, total, active) == Render(b, p2show, total, active)
    ensures Render(Render(a, p2show, total, active), p2show, total, active)
      == Render(a, p2show, total, active)
  {
  }

  /** The window the component shows right after a first initialisation:
      labels 1..total in order, first/last/active shown, at most two
      ellipses. */
  lemma InitialWindow(p2show: int, total: nat, active: int)
    requires 1 <= active <= total && p2show >= -1
    ensures var r := Render(Numbered(total), p2show, total, active);
      |r| == total &&
      (forall k :: 0 <= k < total ==> r[k].displayIndex == k + 1) &&
      r[0].displayValue == Show && r[total - 1].displayValue == Show &&
      r[active - 1].displayValue == Show &&
      EllipsisCount(r) <= 2
  {
    EllipsisPerSide(Numbered(total), p2show, total, active);
  }

  /** Nine pages, one page of context, page 5 active: 1 ... 4 5 6 ... 9,
      with the two ellipses on pages 3 and 7 and pages 2 and 8 hidden. */
  lemma NinePagesActiveFive()
    ensures Render(Numbered(9), 1, 9, 5) ==
      [Page(1, Show), Page(2, Hidden), Page(3, Ellipsis), Page(4, Show), Page(5, Show),
       Page(6, Show), Page(7, Ellipsis), Page(8, Hidden), Page(9, Show)]
  {
  }

  /** Nine pages, no context, page 1 active: 1 ... 9, the ellipsis on page 2. */
  lemma NinePagesActiveFirst()
    ensures Render(Numbered(9), 0, 9, 1) ==
      [Page(1, Show), Page(2, Ellipsis), Page(3, Hidden), Page(4, Hidden), Page(5, Hidden),
       Page(6, Hidden), Page(7, Hidden), Page(8, Hidden), Page(9, Show)]
  {
  }
}
