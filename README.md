# Dynamic table: a verified model of the grid's state logic

The project models the sequential core of a browser data grid and of its
small backend. It leaves out the DOM and the network.

- **`RecordModel`** (`model.dfy`) is the record store `Model`: a header of
  fields and rows of cell values.
  - On load every row gets a positional id (0, 1, 2, …) as its last element.
    The header gets the hidden `_id` column.
  - The `data` getter strips both again for the wire.
  - Rows are edited, removed and inserted by id. A new row's id is one more
    than the largest id present.
- **`Paging`** (`pagination.dfy`) is the `Pagination` class: page size, row
  count and a 1-based current page.
  - Both setters clamp the page into range.
  - `offset` and `limit` select the rows of the current page.
- **`Filtering`** (`filtering.dfy`) is the row filter. A row is kept when
  every non-empty filter term occurs, case-sensitively, in the text of the
  matching column, the id column included.
- **`Sorting`** (`sorting.dfy`) holds three things:
  - the comparator `sort` hands to the library sort;
  - an insertion sort standing in for that library call;
  - the three-state header toggle (unsorted, `sorted`, `sorted-rev`).
- **`Grid`** (`table.dfy`) is the `DynamicTable` controller without its DOM.
  - Its state: the field list, the filter terms, the header classes, the
    optional pagination, the active row and field, the `changed` flag, and
    the ids of the rendered rows.
  - Every re-render goes through `MakeRows`. It counts the visible rows into
    the pagination, renders the slice `[offset, offset + limit)` of them,
    and activates the first rendered cell when no row is active.
- **`Router`** (`router.dfy`) is the backend's `route`, which classifies a
  request by path and method into one of four handlers.
- **`JsString`** (`strings.dfy`) and **`Basics`** (`basics.dfy`) hold the
  JavaScript primitives the core relies on:
  - string `<`, over Unicode scalar values rather than UTF-16 code units;
  - `indexOf`;
  - a number's `toString`;
  - `findIndex`.

A row is the JavaScript array `cells + [id]`: the datatype `Row(cells, id)`
keeps the id apart, in column `|cells|`. The header is a sequence of
`Column(name, title)` values in the object's key order.

The filter is case-sensitive (`indexOf`). So the term "an" does not keep a
row whose cell is "Anna".

## Model

| member | source | states |
|---|---|---|
| RecordModel.Model.constructor | source/model.js:7-13 | The header gains `_id` as its last column. Row i gets id i, and its cells are the i-th input row. `_id` is found at the old header length. The ids are distinct. Reading `data` back gives exactly the header and rows that were loaded. |
| RecordModel.AddIndex | source/model.js:106-112 | Row i of the result is input row i with id i appended. |
| RecordModel.PositionalIdsDistinct | source/model.js:106-112 | Positional ids are pairwise distinct. Stripping them returns the input rows. |
| RecordModel.RemoveIndex | source/model.js:114-120 | One payload row per model row: `_removeIndex` keeps the row count. |
| RecordModel.RemoveIndexIgnoresIds | source/model.js:114-120 | Two row sequences give the same payload exactly when they agree row by row on their cells. The ids never reach the payload. |
| RecordModel.Model.Data | source/model.js:27-35 | One payload row per model row, each equal to that row's cells, in the current order. For a valid store the header is the structure without its trailing `_id`. As a function it cannot change the store. |
| RecordModel.WithoutId | source/model.js:29-31 | The copied header keeps exactly the columns not named `_id`. |
| RecordModel.WithoutIdAppended | source/model.js:9-10 | Deleting `_id` from a header that had `_id` appended gives the original header back. |
| RecordModel.HeaderWithId | source/model.js:9-10 | Appending `_id` to a header of distinct keys without `_id` keeps the keys distinct. `_id` is then found at the old header length, and deleting it gives the header back. |
| RecordModel.IdColumnIsLast | source/model.js:77-87 | In a header with distinct keys ending in `_id`, the `_id` column is found at the last position. |
| RecordModel.Model.SetCellData | source/model.js:37-45 | Exactly one cell changes: the one in the first row with the id, at the field's column. Row count, row order, ids and every other cell are unchanged. The invariant is kept. |
| RecordModel.Model.RemoveRowById | source/model.js:47-53 | Only the first row with the id is removed. With no such row, the rows are unchanged. Ids stay distinct. |
| RecordModel.RemoveKeepsDistinct | source/model.js:47-53 | Splicing one row out (`RemoveAt`) keeps ids pairwise distinct. |
| RecordModel.RemoveAt | source/model.js:51 | `splice(rowNum, 1)` leaves one row fewer. |
| RecordModel.RemoveAtPositions | source/model.js:51 | After `splice(rowNum, 1)`, the rows before `rowNum` keep their place and the later ones move up by one. |
| RecordModel.InsertAt | source/model.js:65 | `splice(rowNum, 0, newItem)` leaves one row more, with `newItem` at `rowNum`. |
| RecordModel.InsertAtPositions | source/model.js:65 | After `splice(rowNum, 0, newItem)`, the rows before `rowNum` keep their place and the later ones move down by one. |
| RecordModel.RemoveInsert | source/model.js:51-65 | Splicing out the row just spliced in at the same index gives the rows back: the two splices are inverse. |
| RecordModel.Model.AddNewRow | source/model.js:55-71 | If `before` is present, `BlankRow()` of the old store is inserted at its index and its id is returned. If `before` is absent, the result is null and the rows are unchanged. Ids stay distinct. |
| RecordModel.Model.BlankRow | source/model.js:59-64 | The new row has one `''` cell per header key but `_id`, and an id above every present id. |
| RecordModel.Blank | source/model.js:61-62 | `Array(n).fill('')` has n cells. |
| RecordModel.BlankCells | source/model.js:61-62 | Every cell of `Array(n).fill('')` is `''`. |
| RecordModel.InsertFreshKeepsDistinct | source/model.js:55-71 | Inserting a row whose id is above every present id keeps ids distinct. |
| RecordModel.Model.GetColNum | source/model.js:77-87 | The result is null exactly when the key is absent. Otherwise it is the key's first position in header order. |
| RecordModel.Model.GetRowNumById | source/model.js:89-93 | The result is the first index whose row has the id, or -1 exactly when no row has it. |
| RecordModel.Model.GetNextId | source/model.js:95-104 | The loop returns `MaxId(rows) + 1`, one more than the largest id counting from 0. |
| RecordModel.MaxIdBounds | source/model.js:95-104 | `MaxId` is at least every id, and it is one of the ids unless it is 0. So `MaxId + 1` is an id no row has. |
| RecordModel.PermutationKeepsDistinct | source/dynamic-table.js:299-310 | Reordering rows in place keeps ids pairwise distinct. |
| RecordModel.PermutationKeepsWidth | source/dynamic-table.js:299-310 | Reordering rows keeps every row's cell count. |
| Basics.FirstIndex | source/dynamic-table.js:406-408 | `findIndex` gives -1 exactly when the value is absent. Otherwise it gives a position holding the value, and no earlier position holds it. |
| Basics.FirstIndexAt | source/dynamic-table.js:406-408 | A position holding the value, with no earlier occurrence, is what `findIndex` returns. |
| JsString.LessIrreflexive | source/dynamic-table.js:305 | String `<` never holds between a string and itself. |
| JsString.LessAsymmetric | source/dynamic-table.js:305 | String `<` never holds in both directions. |
| JsString.LessTransitive | source/dynamic-table.js:305 | String `<` is transitive. |
| JsString.LessTotal | source/dynamic-table.js:305 | Of two different strings, one is `<` the other. |
| JsString.IndexOf | source/dynamic-table.js:674 | `indexOf` is -1 only when the term occurs nowhere in the text. Otherwise the term occurs at the result and at no earlier position. |
| JsString.NatToString | source/dynamic-table.js:674 | An id's `toString()` is a non-empty string of decimal digits with no leading zero. |
| JsString.NatToStringRoundTrip | source/dynamic-table.js:674 | The decimal value of an id's text is the id. |
| Paging.Clamp | source/dynamic-table.js:748-756 | With pages to show, the result is a page that exists: the requested page when it exists, otherwise the nearest one. With no pages, the result is 0 or 1. |
| Paging.TimesIsProduct | source/dynamic-table.js:740-742 | The repeated addition `Times(a, k)` is `a * k`. |
| Paging.CeilDivBounds | source/dynamic-table.js:774-776 | `CeilDiv(n, k)` pages of k rows hold all n rows, one page fewer does not, and it is 0 exactly when n is 0. |
| Paging.CeilDivIsCeiling | source/dynamic-table.js:774-776 | `CeilDiv(n, k)` is `Math.ceil(n / k)`: n / k when k divides n, otherwise n / k + 1. |
| Paging.Rem | source/dynamic-table.js:730-731 | The remainder is below the page size. |
| Paging.RemIsModulo | source/dynamic-table.js:730-731 | `Rem(n, k)` is `n % k`. |
| Paging.LastPageRows | source/dynamic-table.js:729-735 | The full pages before the last, plus the last page's `n % k` rows (k when that is 0), are exactly n rows. |
| Paging.Pagination.constructor | source/dynamic-table.js:703-707 | The new pagination keeps the given page size and row count and starts on page 1. |
| Paging.Pagination.PagesCount | source/dynamic-table.js:774-776 | `ceil(rowsCount / rowsPerPage)`: the fewest pages that hold every row. |
| Paging.Pagination.Offset | source/dynamic-table.js:740-742 | On an existing page, the first row shown is a row that exists. On page 1 it is row 0. |
| Paging.Pagination.OffsetIsProduct | source/dynamic-table.js:740-742 | On every page, the offset is `(currentPage - 1) * rowsPerPage`. |
| Paging.Pagination.Limit | source/dynamic-table.js:724-738 | Equals `rowsCount` when `rowsPerPage > rowsCount`; otherwise at most `rowsPerPage`. Positive when there are rows. Every page before the last is full. On an existing page, `offset + limit <= rowsCount`, with equality on the last page. |
| Paging.Pagination.SetRowsCount | source/dynamic-table.js:713-722 | The page is clamped into the new range. With 0 rows a page of 1 or more becomes 0. The invariant is kept. |
| Paging.Pagination.SetCurrentPage | source/dynamic-table.js:748-756 | The stored page is the clamped request. The invariant is kept. |
| Paging.Pagination.GoFirstPage | source/dynamic-table.js:758-760 | With pages to show, the page becomes 1. |
| Paging.Pagination.GoPrevPage | source/dynamic-table.js:762-764 | The page becomes the clamped previous page. Page 1 stays page 1. |
| Paging.Pagination.GoNextPage | source/dynamic-table.js:766-768 | The page becomes the clamped next page. The last page stays the last page. |
| Paging.Pagination.GoLastPage | source/dynamic-table.js:770-772 | With pages to show, the page becomes `pagesCount`. |
| Filtering.Filter | source/dynamic-table.js:658-668 | The kept rows are no more than the input rows. `FilterKeepsPassing` states which rows are kept. |
| Filtering.FilterKeepsPassing | source/dynamic-table.js:658-681 | A row is kept exactly when it is one of the rows and passes every non-empty term. |
| Filtering.FilterAppend | source/dynamic-table.js:658-668 | Filtering distributes over concatenation: it keeps the model order. |
| Filtering.FilterAllEmpty | source/dynamic-table.js:24-29 | With every term `''`, as on load, every row is kept, in order. |
| Filtering.FilterRemoveHidden | source/dynamic-table.js:658-668 | Removing (`RemoveAt`) a row the filter hides leaves the visible rows unchanged. |
| Filtering.PassesIffSubstrings | source/dynamic-table.js:670-681 | Without a `break`, the flag loop still means "every non-empty term occurs in its column's text". |
| Filtering.IdColumnIgnored | source/dynamic-table.js:24-29 | While the `_id` term is `''`, a row's id has no influence on whether the row is kept. |
| Grid.DynamicTable.IsRowFiltered | source/dynamic-table.js:670-681 | The flag loop over every column, the id column included, returns exactly `Passes`. |
| Grid.DynamicTable.GetFilteredRows | source/dynamic-table.js:658-668 | The pushing loop returns exactly the visible rows `Filter(terms, model.rows)`. |
| Grid.CollectIds | source/dynamic-table.js:542-557 | The rendering loop emits the ids of rows `offset` to `offset + limit`, in order. |
| Grid.DynamicTable.RenderPage | source/dynamic-table.js:523-557 | `Rendered`: with pagination, the row count is the number of visible rows and the old page is clamped into the new range. The rendered ids are `PageOf` the visible rows: none when no row is visible, all of them without pagination, otherwise rows `offset` to `offset + limit`. The page size is unchanged. |
| Grid.DynamicTable.RenderPaged | source/dynamic-table.js:525-537 | With pagination, `rowsCount` is set before `limit` and `offset` are read, so the rendered page is the clamped one. |
| Grid.DynamicTable.PageIds | source/dynamic-table.js:533-557 | The loop from `offset` to `offset + limit` emits exactly `PageOf` the visible rows. |
| Grid.DynamicTable.RenderedPage | source/dynamic-table.js:519-557 | A rendered page holds at most `rowsPerPage` ids, each of a visible row. It is empty exactly when no row is visible. Without pagination it holds every visible row. |
| Grid.DynamicTable.SetDefaultActiveField | source/dynamic-table.js:206-213 | With a rendered row, the first one becomes active, and `fields[0]` too if the setter accepts it. With none, nothing changes. |
| Grid.DynamicTable.MakeRows | source/dynamic-table.js:519-565 | `ShowsPage`: the rendering is `Rendered` for the old page. With no active row and a rendered row, the first rendered row becomes active, with the first field; otherwise the active cell stays. The grid invariant is kept. |
| Grid.DynamicTable.constructor | source/dynamic-table.js:13-41 | Fields are the header keys, every filter term is `''`, and every header is unsorted. Pagination exists exactly when configured, with 10 rows per page by default, counting every row, on page 1. Nothing is active or rendered yet: `render` ends in `MakeRows`. |
| Grid.DynamicTable.SetActiveField | source/dynamic-table.js:177-194 | `''` and `_id` are refused. When the active row is not rendered, the setter throws before storing anything. Otherwise the field becomes active. |
| Grid.DynamicTable.ContentColumn | source/dynamic-table.js:406-408 | A field other than `_id` sits before the id column, so every row has a cell there. |
| Grid.DynamicTable.FieldPosition | source/dynamic-table.js:406-408 | Field names are distinct, so `_getColNum(fields[c]) == c`. |
| Grid.DynamicTable.ActiveFieldIsContent | source/dynamic-table.js:179 | The setter's guard (`Grid.Selectable`: not empty, not `_id`) keeps the cursor off the id column. In a valid grid the active field is non-empty, and its column is a content column of every row. |
| Grid.DynamicTable.NextCol | source/dynamic-table.js:257-264 | Moves to `fields[c + 1]` unless c is the last index; never onto `_id`. The active field only ever moves one step right. |
| Grid.DynamicTable.PrevCol | source/dynamic-table.js:266-273 | Nothing happens at index ≤ 0. Otherwise the field moves one step left. |
| Grid.DynamicTable.FirstCol | source/dynamic-table.js:275-278 | Selects `fields[0]`, subject to the setter. |
| Grid.DynamicTable.LastCol | source/dynamic-table.js:280-283 | Selects `fields[length - 2]`, the field before `_id`, subject to the setter. |
| Grid.DynamicTable.SetFilter | source/dynamic-table.js:314-317 | Only that field's term changes. The re-render clamps the page against the new number of visible rows. |
| Sorting.Compare | source/dynamic-table.js:299-309 | The comparator returns -1, 0 or 1, and 0 exactly when the two keys are equal. |
| Sorting.CompareMeaning | source/dynamic-table.js:299-310 | The comparator is 0 exactly on equal keys and antisymmetric. Ascending means `<`; with `rev` it means `>`. |
| Sorting.InOrderTransitive | source/dynamic-table.js:299-310 | The comparator's order is transitive, so the library sort has a consistent order. |
| Sorting.Insert | source/dynamic-table.js:299-310 | Insertion adds exactly the one row: a multiset equation. |
| Sorting.InsertKeepsOrder | source/dynamic-table.js:299-310 | Inserting into a sorted sequence keeps it sorted. |
| Sorting.SortRows | source/dynamic-table.js:299-310 | The result is a permutation of the rows, sorted by the column under the comparator. |
| Sorting.OrderedKeys | source/dynamic-table.js:299-310 | In sorted rows a column's values never decrease by `<`, or never increase with `rev`. |
| Grid.DynamicTable.Sort | source/dynamic-table.js:296-312 | `model.rows` becomes a permutation of itself, sorted by `_getColNum(f)`. Ids stay distinct, and the grid is re-rendered. |
| Grid.DynamicTable.SortModel | source/dynamic-table.js:297-310 | The store's rows become a sorted permutation of themselves, and the grid invariant, distinct ids included, is kept. |
| Sorting.NextMark | source/dynamic-table.js:372-388 | A clicked header always ends up marked. |
| Sorting.ClickHeader | source/dynamic-table.js:363-390 | The same headers keep marks. The clicked header is the only one marked. |
| Sorting.ClickCycle | source/dynamic-table.js:363-390 | The first click gives ascending unless the header was ascending. Every further click flips the direction, and two more clicks restore the classes. |
| Grid.DynamicTable.SortByHeader | source/dynamic-table.js:363-390 | The classes advance as in `ClickHeader`. The rows end sorted descending exactly when the clicked header becomes `sorted-rev`. |
| Grid.DynamicTable.Insert | source/dynamic-table.js:285-289 | If `rowId` is present, the model gains the old store's `BlankRow()` at its index, that row becomes active, and the grid shows the old page with it. If `rowId` is absent, the rows are unchanged and the re-render activates the first rendered row. |
| Grid.DynamicTable.InsertBlankRow | source/dynamic-table.js:286 | `activeRow = model.addNewRow(rowId)`: the new row's id, or null, becomes active, and the grid invariant is kept. |
| Grid.DynamicTable.Remove | source/dynamic-table.js:291-294 | The first row with that id is removed (`RemoveAt`), if any, and the grid re-renders with the old page and active cell. |
| Grid.DynamicTable.RemoveFromModel | source/dynamic-table.js:292 | `removeRowById` keeps the grid invariant. |
| Grid.DynamicTable.GoFirstPage | source/dynamic-table.js:319-325 | With pagination, the rows are counted, the page becomes page 1 clamped, and the grid re-renders. Without pagination nothing changes. |
| Grid.DynamicTable.GoPrevPage | source/dynamic-table.js:327-333 | The same, with the clamped previous page. |
| Grid.DynamicTable.GoNextPage | source/dynamic-table.js:335-341 | The same, with the clamped next page. |
| Grid.DynamicTable.GoLastPage | source/dynamic-table.js:343-349 | The same, with the last page. |
| Grid.DynamicTable.EditActiveCell | source/dynamic-table.js:120-124 | The active cell's text is written into the model, the only change there, and `changed` is set. |
| Grid.DynamicTable.Save | source/dynamic-table.js:640-651 | The posted payload is the model's `data` and `changed` is cleared synchronously. |
| Router.Route | backend/router.js:13-23 | The result is exactly one of four outcomes. GET on `'/'` or on a path with an extension is a static GET. GET on any other extensionless path is a data GET. POST on an extensionless path, `'/'` included, is a data POST carrying the body. Everything else is a 501. |

## Left out

- The data service (XHR, promises, `JSON.parse`) is not part of this model. Its use of the store is the `Model` constructor and `Data`.
- The DOM and rendering are not modelled: headers, filter inputs, buttons, the info string, CSS classes, `contentEditable` and focus. The rendered rows are only their ids, in `renderedIds`.
- `nextRow`, `prevRow`, `firstRow` and `lastRow` are not modelled. They read DOM siblings or treat positions as ids.
- The asynchronous outcome of a save (`lastSavingError`) is not modelled. Only the synchronous clearing of `changed` is.
- `backend/request-handler.js`, `backend/server.js`, `backend/index.js`, `source/componentsRenderer.js` and `source/index.js` are file, HTTP and bootstrap code. They are not part of this model.
- `Router.Route`: `path.extname` is a parameter `hasExt`. Node's extension rules are not modelled.
- `getId` is not a member: a row's id is the field `Row.id`.
- JavaScript coercions are not modelled. `rowsPerPage` is read from `dataset` as a string, and ids are matched with `==`. Ids, page sizes and counts are integers, and cells are strings.
- The order of an object's integer-like keys is not modelled: the header is a sequence in insertion order.
- The `filters` object keyed by field name is a sequence indexed by column. Field names are distinct, so each field has exactly one term.
- `RecordModel.Model.constructor`: it requires distinct header keys and no `_id` key. The source would overwrite an existing `_id` key in place.
- `RecordModel.Model.constructor`: the source appends ids to the caller's own row arrays, and this aliasing is not modelled.
- `RecordModel.Model.constructor`: the payload arrives already split into a header and rows of strings. The `TypeError` that `new Model(json)` throws on an empty or ill-shaped payload is not modelled, nor is the failed load it causes. Examples: an empty array fails when `_id` is set on an undefined structure, and a row that is not an array fails at `push`.
- `RecordModel.Model.constructor`: rows of the wrong length are accepted, but the controller then requires `WellFormed`.
- `Pagination`'s third constructor argument, `currentPage`, is never passed, so it is fixed at 1.
- `JsString.Less`: strings are sequences of Unicode scalar values, while JavaScript compares UTF-16 code units. A character above U+FFFF sorts before U+E000–U+FFFF there and after them here. This affects `Sorting.Compare` and `sort`.
- `SortRows`: it stands for the engine's `Array.prototype.sort`. Only the permutation and the order are stated, not the stability of the sort.
- `Grid.DynamicTable.SetFilter`: it requires a field other than `_id`. Filter inputs exist only for the visible fields.
- `Grid.DynamicTable.SetActiveField`: the `TypeError` thrown when the active row is not rendered is modelled as "no change". Its propagation to the caller is not modelled.
- `Grid.DynamicTable.EditActiveCell`: it requires the active row to exist in the model. The source crashes otherwise.
- `Grid.DynamicTable.EditActiveCell`: the source first reads the active cell from the DOM (`getDirtyActiveCellData`). It throws when the active row is not rendered, even if the row is still in the model. The model lets that edit through.
- `Grid.DynamicTable.EditActiveCell`: the edited text is a parameter. The source reads it from the DOM.
