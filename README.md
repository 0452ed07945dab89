# mm-paginator page window, in Dafny

This project models the logic of `PaginationComponent`, the Angular
paginator of mm-paginator. Given a number of data entries (`dataLength`), a
page size (`entriesToShow`) and a context size (`pagesToShowAroundActive`,
`p2show` below), the component does three things:

- it validates its configuration;
- it computes the page count and builds one `Page` entry per page;
- for each entry it decides whether the page number is shown (`Show`, the
  source's `true`), replaced by "..." (`Ellipsis`, `false`) or hidden
  (`Hidden`, `null`).

A click on a page moves the active page, re-renders every entry and reports
the active page to the parent component.

- `PageWindow.dfy` (module `PageWindow`) holds the pure rule. `ShowsNumber`
  and `ShowsEllipsis` are the two conditions of `displayCondition`, written
  with the source's 0-based arithmetic. `Decide` combines them for one entry.
  `Render` is one whole pass over the page list. The lemmas state what the
  rule guarantees.
- `Paginator.dfy` (module `Paginator`) holds the configuration check, the
  ceiling division and the class `PaginationComponent`. The class has the
  source's fields `activePage`, `pagesTotal`, `pagesAsObjects`,
  `paginatorWarning` and `paginatorWarningMessage`. The field `emitted`
  records every value sent through `sendChangesToParent`. `Valid()` is the
  class invariant:
  - the active page is between 1 and `pagesTotal`;
  - the page list is exactly what the rule gives for the current state;
  - `pagesTotal` is either its default 1 or the computed page count.

The loops of the source are kept as loops: the `forEach` rewrite in
`DisplayCondition`, and the counting loop that pushes entries in `NgOnInit`.
Each loop is proved against `Render` or `Numbered`.

Three behaviours of the code worth noting:

- An out-of-range `changePage(index)` still re-renders the pages and emits
  the unchanged active page once. The model's `ChangePage` does the same.
  The re-rendered list equals the old one, because the list was already
  rendered for that state.
- With 9 entries, page size 1, context 1 and page 5 active, the code marks
  pages 3 and 7 as `Ellipsis` and pages 2 and 8 as `Hidden`. The rendered
  text is `1 … 4 5 6 … 9`. See `NinePagesActiveFive`.
- A context of 5 with 10 entries shown 3 per page passes the check. The
  context size is bounded by `dataLength`, not by the page count. See
  `ConfigExamples`.

## Model

| member | source | states |
|---|---|---|
| PageWindow.Render | src/lib/mmpaginator.component.ts:93-96 | rewriting the display values keeps the list's length and every entry's `displayIndex` |
| PageWindow.Numbered | src/lib/mmpaginator.component.ts:53-55 | initialisation pushes `n` entries labelled 1..n in increasing order, all not displayed |
| PageWindow.AnchorsAndWindowShown | src/lib/mmpaginator.component.ts:104-124 | after the rewrite, page 1, page `total` and the active page are shown, and so is every page whose label lies in `[active - p2show, active + p2show]` |
| PageWindow.EllipsisCandidates | src/lib/mmpaginator.component.ts:165-187 | an entry is an ellipsis exactly when it is not shown and its label is `active + p2show + 1` or `active - p2show - 1` |
| PageWindow.EllipsisCoversTwoPages | src/lib/mmpaginator.component.ts:128-157 | a right-hand ellipsis sits at label `total - 2` or below and the page after it is hidden; a left-hand one sits at label 3 or above and the page before it is hidden; no ellipsis sits on the active page |
| PageWindow.HiddenPagesBehindEllipsis | src/lib/mmpaginator.component.ts:165-184 | with `p2show >= 0` every hidden page lies beyond the ellipsis on its side of the active page, and that ellipsis is present |
| PageWindow.NoContextNoEllipsis | src/lib/mmpaginator.component.ts:97-188 | with `p2show == -1` only the first, last and active pages are shown and no ellipsis appears |
| PageWindow.EllipsisPerSide | src/lib/mmpaginator.component.ts:165-187 | at most one ellipsis left of the active page, at most one right of it, at most two in all |
| PageWindow.RenderIgnoresOldValues | src/lib/mmpaginator.component.ts:93-188 | every entry is reset before it is decided, so the result depends only on the labels and on `(p2show, total, active)`; rewriting twice gives the same list |
| PageWindow.InitialWindow | src/lib/mmpaginator.component.ts:47-62 | a first initialisation yields labels 1..total in order, with first, last and active pages shown and at most two ellipses |
| PageWindow.NinePagesActiveFive | src/lib/mmpaginator.component.ts:92-192 | nine pages, context 1, page 5 active: `1 … 4 5 6 … 9`, ellipses on pages 3 and 7 |
| PageWindow.NinePagesActiveFirst | src/lib/mmpaginator.component.ts:92-192 | nine pages, context 0, page 1 active: `1 … 9`, the ellipsis on page 2 |
| Paginator.CeilDiv | src/lib/mmpaginator.component.ts:52 | the page count is the least `r` with `dataLength <= r * entriesToShow` |
| Paginator.ConfigFault | src/lib/mmpaginator.component.ts:202-220 | the context-size error is reported exactly when `p2show` is outside `[-1, dataLength]`; otherwise the page-size error is reported exactly when `entriesToShow` is outside `[1, dataLength]`; no error when both hold |
| Paginator.PassingConfigPageCount | src/lib/mmpaginator.component.ts:202-220 | a configuration that passes the check gives `1 <= pagesTotal <= dataLength` |
| Paginator.ConfigExamples | src/lib/mmpaginator.component.ts:205-219 | page size 0 is refused with the page-size message; a context above `dataLength` is refused with the context message; context 5, page size 3 and 10 entries pass and give 4 pages |
| Paginator.PaginationComponent.constructor | src/lib/mmpaginator.component.ts:19-38 | the inputs are bound, active page 1, one page, empty page list, no warning, nothing emitted, and the invariant holds |
| Paginator.PaginationComponent.CheckForErrors | src/lib/mmpaginator.component.ts:202-220 | returns true exactly when the check fails, and then raises the warning with the first failing check's message; otherwise the warning fields are untouched |
| Paginator.PaginationComponent.DisplayCondition | src/lib/mmpaginator.component.ts:92-195 | the page list becomes `Render` of the old list, and exactly one value, the active page, is emitted |
| Paginator.PaginationComponent.ValidGivesWindow | src/lib/mmpaginator.component.ts:104-187 | in every valid component state whose list holds one entry per page, the first, last and active pages are shown and at most two entries are "..." |
| Paginator.PaginationComponent.NgOnInit | src/lib/mmpaginator.component.ts:47-63 | on a failed check only the warning changes; otherwise `pagesTotal` is the ceiling division, entries 1..pagesTotal are pushed and rendered, the active page is emitted once, and the invariant is kept; a first initialisation leaves first, last and active pages shown and at most two ellipses |
| Paginator.PaginationComponent.ChangePage | src/lib/mmpaginator.component.ts:71-81 | the active page becomes `index` only when `0 < index <= pagesTotal`; the pages are re-rendered (and unchanged when the index was refused); the resulting active page is emitted once; the invariant is kept; with one entry per page, first, last and active pages stay shown and at most two ellipses appear after every click |

## Left out

- Angular wiring: the `@Component`, `@Input` and `@Output` decorators and the `EventEmitter`. Emission is modelled as appending to the `emitted` sequence.
- The inputs `entriesToShow`, `pagesToShowAroundActive` and `dataLength` are fixed when the component is constructed. A parent rebinding them later is not modelled; the source has no change handler either.
- The HTML template, `prevText` and `nextText`, and the literal warning strings. The message is modelled as a tag naming the failing check, and `None` stands for the initial empty message.
- `src/lib/mmpaginator.module.ts` is not part of this model: it only registers the component.
- `mmpaginator/src/lib/mmpaginator.component.spec.ts` is not part of this model: it is a creation smoke test that asserts no behaviour.
- Paginator.CeilDiv: the source divides in floating point and rounds up with `Math.ceil`. The model uses integer ceiling division. These agree for entry counts below 2^53.
- `dataLength` is typed `any` in the source. The model takes it as an integer; a non-numeric or fractional value is not modelled.
- `entriesToShow` and `pagesToShowAroundActive` are JavaScript numbers in the source and may be fractional; fractional values pass the configuration check. The model takes both as integers, so fractional values are not modelled. For example, a page size of 2.5 over 10 entries gives 4 pages, and a context of 0.5 shows the active page and the one after it with no ellipsis.
- Paginator.PaginationComponent.ChangePage: the click index is taken as an integer, so fractional indices are not modelled. The source's guard accepts any number in (0, pagesTotal]: `changePage(2.5)` with 9 pages sets the active page to 2.5. No entry then matches the active-page test or either ellipsis test, so the active page is not shown, no "..." appears, and 2.5 is emitted. The window guarantees of `ChangePage` hold for whole-number clicks only.
- Paginator.PaginationComponent.DisplayCondition: the source receives the page array as a parameter. Every call passes `this.pagesAsObjects`, so the model works on that field directly. Aliasing of the array and of its `Page` objects is not modelled.
- Paginator.PaginationComponent.NgOnInit: repeated calls push a second set of entries onto the existing list, and the model does the same. Only a first initialisation from an empty list yields labels 1..pagesTotal, as `InitialWindow` states.
