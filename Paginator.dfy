/** The paginator component: configuration check, page count, the page list
    it keeps, and the active page it reports to its parent. */
module Paginator {
  import opened PageWindow

  datatype Option<T> = None | Some(value: T)

  /** Which configuration value the warning is about. */
  datatype Warning = PagesToShowAroundActiveError | EntriesToShowError

  /** Ceiling of `dataLength / entriesToShow` on naturals. */
  function CeilDiv(dataLength: int, entriesToShow: int): (r: int)
    requires dataLength >= 0 && entriesToShow >= 1
    ensures (r - 1) * entriesToShow < dataLength <= r * entriesToShow
  {
    var q := (dataLength + entriesToShow - 1) / entriesToShow;
    var m := (dataLength + entriesToShow - 1) % entriesToShow;
    assert dataLength + entriesToShow - 1 == q * entriesToShow + m;
    q
  }

  /** The outcome of the configuration check: the context size must lie in
      [-1, dataLength] and is checked first; then the page size must lie in
      [1, dataLength]. */
  function ConfigFault(pagesToShowAroundActive: int, entriesToShow: int, dataLength: int)
    : (r: Option<Warning>)
    ensures r == Some(PagesToShowAroundActiveError) <==>
      !(-1 <= pagesToShowAroundActive <= dataLength)
    ensures r == Some(EntriesToShowError) <==>
      -1 <= pagesToShowAroundActive <= dataLength && !(1 <= entriesToShow <= dataLength)
    ensures r == None <==>
      -1 <= pagesToShowAroundActive <= dataLength && 1 <= entriesToShow <= dataLength
  {
    if pagesToShowAroundActive < -1 || pagesToShowAroundActive > dataLength then
      Some(PagesToShowAroundActiveError)
    else if entriesToShow < 1 || entriesToShow > dataLength then
      Some(EntriesToShowError)
    else
      None
  }

  /** A configuration that passes the check yields between 1 and dataLength
      pages. */
  lemma PassingConfigPageCount(pagesToShowAroundActive: int, entriesToShow: int, dataLength: int)
    requires ConfigFault(pagesToShowAroundActive, entriesToShow, dataLength) == None
    ensures 1 <= CeilDiv(dataLength, entriesToShow) <= dataLength
  {
  }

  /** Three configurations: a page size of 0 is refused, a context larger
      than the entry count is refused, and a context of 5 pages over 10
      entries shown 3 at a time passes (the context is bounded by the entry
      count, not the page count). */
  lemma ConfigExamples()
    ensures ConfigFault(0, 0, 10) == Some(EntriesToShowError)
    ensures ConfigFault(5, 3, 10) == None && CeilDiv(10, 3) == 4
    ensures ConfigFault(11, 0, 10) == Some(PagesToShowAroundActiveError)
  {
  }

  class PaginationComponent {
    // inputs bound by the parent
    const entriesToShow: int
    const pagesToShowAroundActive: int
    const dataLength: int

    var activePage: int
    var pagesTotal: int
    var pagesAsObjects: seq<Page>
    var paginatorWarning: bool
    var paginatorWarningMessage: Option<Warning>
    /** Every value sent to the parent, oldest first. */
    var emitted: seq<int>

    /** The component's invariant: the active page is a page, the page list
        is exactly what the rule gives for the current state, and the page
        count is the default or the one computed from the inputs. */
    ghost predicate Valid()
      reads this
    {
      1 <= activePage <= pagesTotal &&
      pagesAsObjects == Render(pagesAsObjects, pagesToShowAroundActive, pagesTotal, activePage) &&
      (pagesTotal == 1 ||
       (ConfigFault(pagesToShowAroundActive, entriesToShow, dataLength) == None &&
        pagesTotal == CeilDiv(dataLength, entriesToShow)))
    }

    /** What the page list shows once it holds one entry per page: the
        first, last and active pages are numbers, and at most two entries are
        "...". */
    ghost predicate WindowHolds()
      reads this
    {
      1 <= activePage <= pagesTotal && |pagesAsObjects| == pagesTotal &&
      pagesAsObjects[0].displayValue == Show &&
      pagesAsObjects[pagesTotal - 1].displayValue == Show &&
      pagesAsObjects[activePage - 1].displayValue == Show &&
      EllipsisCount(pagesAsObjects) <= 2
    }

    /** In every valid state whose page list holds one entry per page, the
        window guarantees hold. */
    lemma ValidGivesWindow()
      requires Valid() && |pagesAsObjects| == pagesTotal
      ensures WindowHolds()
    {
      AnchorsAndWindowShown(pagesAsObjects, pagesToShowAroundActive, pagesTotal, activePage);
      if pagesTotal == 1 {
        EllipsisCountAtMostOne(pagesAsObjects, 0);
      } else {
        EllipsisPerSide(pagesAsObjects, pagesToShowAroundActive, pagesTotal, activePage);
      }
    }

    constructor (entriesToShow: int, pagesToShowAroundActive: int, dataLength: int)
      ensures Valid()
      ensures this.entriesToShow == entriesToShow
      ensures this.pagesToShowAroundActive == pagesToShowAroundActive
      ensures this.dataLength == dataLength
      ensures activePage == 1 && pagesTotal == 1 && pagesAsObjects == []
      ensures !paginatorWarning && paginatorWarningMessage == None && emitted == []
    {
      this.entriesToShow := entriesToShow;
      this.pagesToShowAroundActive := pagesToShowAroundActive;
      this.dataLength := dataLength;
      activePage := 1;
      pagesTotal := 1;
      pagesAsObjects := [];
      paginatorWarning := false;
      paginatorWarningMessage := None;
      emitted := [];
    }

    /** Validates the inputs; on a fault raises the warning with the message
        of the first failing check, otherwise leaves the warning alone. */
    method CheckForErrors() returns (err: bool)
      modifies this`paginatorWarning, this`paginatorWarningMessage
      ensures err <==> ConfigFault(pagesToShowAroundActive, entriesToShow, dataLength).Some?
      ensures err ==> (paginatorWarning &&
        paginatorWarningMessage == ConfigFault(pagesToShowAroundActive, entriesToShow, dataLength))
      ensures !err ==> (paginatorWarning == old(paginatorWarning) &&
        paginatorWarningMessage == old(paginatorWarningMessage))
    {
      if pagesToShowAroundActive < -1 || pagesToShowAroundActive > dataLength {
        paginatorWarning := true;
        paginatorWarningMessage := Some(PagesToShowAroundActiveError);
        return true;
      }
      if entriesToShow < 1 || entriesToShow > dataLength {
        paginatorWarning := true;
        paginatorWarningMessage := Some(EntriesToShowError);
        return true;
      }
      return false;
    }

    /** Rewrites every entry's display value in place, first resetting it to
        hidden, then reports the active page to the parent. */
    method DisplayCondition(p2show: int, total: int, active: int)
      modifies this`pagesAsObjects, this`emitted
      ensures pagesAsObjects == Render(old(pagesAsObjects), p2show, total, active)
      ensures emitted == old(emitted) + [activePage]
    {
      var idx := 0;
      while idx < |pagesAsObjects|
        modifies this`pagesAsObjects
        invariant 0 <= idx <= |pagesAsObjects| == |old(pagesAsObjects)|
        invariant forall k :: 0 <= k < idx ==>
          pagesAsObjects[k] == old(pagesAsObjects)[k].(displayValue := Decide(p2show, total, active, k))
        invariant forall k :: idx <= k < |pagesAsObjects| ==>
          pagesAsObjects[k] == old(pagesAsObjects)[k]
      {
        pagesAsObjects := pagesAsObjects[idx := pagesAsObjects[idx].(displayValue := Hidden)];
        if ShowsNumber(p2show, total, active, idx) {
          pagesAsObjects := pagesAsObjects[idx := pagesAsObjects[idx].(displayValue := Show)];
        } else if ShowsEllipsis(p2show, total, active, idx) {
          pagesAsObjects := pagesAsObjects[idx := pagesAsObjects[idx].(displayValue := Ellipsis)];
        }
        idx := idx + 1;
      }
      emitted := emitted + [activePage];
    }

    /** Initialisation: unless the check fails, computes the page count,
        pushes one entry per page labelled 1..pagesTotal and renders them. */
    method NgOnInit()
      requires Valid()
      modifies this
      ensures Valid()
      ensures activePage == old(activePage)
      ensures ConfigFault(pagesToShowAroundActive, entriesToShow, dataLength).Some? ==>
        paginatorWarning &&
        paginatorWarningMessage == ConfigFault(pagesToShowAroundActive, entriesToShow, dataLength) &&
        pagesTotal == old(pagesTotal) && pagesAsObjects == old(pagesAsObjects) &&
        emitted == old(emitted)
      ensures ConfigFault(pagesToShowAroundActive, entriesToShow, dataLength).None? ==>
        paginatorWarning == old(paginatorWarning) &&
        paginatorWarningMessage == old(paginatorWarningMessage) &&
        pagesTotal == CeilDiv(dataLength, entriesToShow) &&
        pagesAsObjects == Render(old(pagesAsObjects) + Numbered(pagesTotal),
                                 pagesToShowAroundActive, pagesTotal, activePage) &&
        emitted == old(emitted) + [activePage]
      ensures (old(pagesAsObjects) == [] &&
               ConfigFault(pagesToShowAroundActive, entriesToShow, dataLength).None?)
        ==> WindowHolds()
    {
      var err := CheckForErrors();
      if err {
        return;
      }
      PassingConfigPageCount(pagesToShowAroundActive, entriesToShow, dataLength);
      pagesTotal := CeilDiv(dataLength, entriesToShow);
      var i := 1;
      while i <= pagesTotal
        modifies this`pagesAsObjects
        invariant 1 <= i <= pagesTotal + 1
        invariant pagesAsObjects == old(pagesAsObjects) + Numbered(i - 1)
      {
        assert Numbered(i) == Numbered(i - 1) + [Page(i, Hidden)];
        pagesAsObjects := pagesAsObjects + [Page(i, Hidden)];
        i := i + 1;
      }
      ghost var pushed := pagesAsObjects;
      DisplayCondition(pagesToShowAroundActive, pagesTotal, activePage);
      RenderIgnoresOldValues(pushed, pushed, pagesToShowAroundActive, pagesTotal, activePage);
      if old(pagesAsObjects) == [] {
        ValidGivesWindow();
      }
    }

    /** A click on page `index`: the active page moves only to an existing
        page; either way the pages are re-rendered and the active page is
        reported once. */
    method ChangePage(index: int)
      requires Valid()
      modifies this`activePage, this`pagesAsObjects, this`emitted
      ensures Valid()
      ensures activePage == if 0 < index <= pagesTotal then index else old(activePage)
      ensures pagesAsObjects ==
        Render(old(pagesAsObjects), pagesToShowAroundActive, pagesTotal, activePage)
      ensures !(0 < index <= pagesTotal) ==> pagesAsObjects == old(pagesAsObjects)
      ensures emitted == old(emitted) + [activePage]
      ensures |pagesAsObjects| == pagesTotal ==> WindowHolds()
    {
      if index > 0 && index <= pagesTotal {
        activePage := index;
      }
      DisplayCondition(pagesToShowAroundActive, pagesTotal, activePage);
      RenderIgnoresOldValues(old(pagesAsObjects), old(pagesAsObjects),
                             pagesToShowAroundActive, pagesTotal, activePage);
      if |pagesAsObjects| == pagesTotal {
        ValidGivesWindow();
      }
    }
  }
}
