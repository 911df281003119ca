/**
 * The grid controller (`DynamicTable`) without its DOM: the field list, the
 * filter terms, the header sort classes, the optional pagination, the active
 * cell, the `changed` flag and the ids of the rows currently rendered.
 * Every operation that re-renders ends in `MakeRows`, which recomputes the
 * visible rows and the page of them that is shown.
 */
module Grid {
  import opened Basics
  import opened JsString
  import opened RecordModel
  import opened Paging
  import opened Filtering
  import opened Sorting

  /** The page size used when none is configured. */
  const DefaultRowsPerPage: int := 10

  /** The guard of the `activeField` setter: empty names and `_id` are refused. */
  predicate Selectable(name: string)
  {
    name != "" && name != IdField
  }

  /** The rendering loop of `_makeRows`: the ids of rows `offset` up to
      `offset + limit`, in order. */
  method CollectIds(rows: seq<Row>, offset: nat, limit: nat) returns (ids: seq<nat>)
    requires offset + limit <= |rows|
    ensures ids == Ids(rows[offset..offset + limit])
  {
    ids := [];
    for rowNum := offset to offset + limit
      invariant |ids| == rowNum - offset
      invariant forall k :: 0 <= k < |ids| ==> ids[k] == rows[offset + k].id
    {
      ids := ids + [rows[rowNum].id];
    }
  }

  class DynamicTable {
    var model: Model
    /** The header keys in order, `_id` last. */
    var fields: seq<string>
    /** The filter term of each field, by column: `filters[c]` is the term
        of `fields[c]`; '' filters nothing. */
    var filters: seq<string>
    /** The sort class of each visible header. */
    var marks: map<string, Mark>
    /** null when the grid is not paginated. */
    var pagination: Pagination?
    /** `_activeRow`: the id of the active row; None for undefined or null. */
    var activeRow: Option<nat>
    /** `_activeField`: None while undefined. */
    var activeField: Option<string>
    var changed: bool
    /** The `data-row-id` of every rendered row, top to bottom. */
    var renderedIds: seq<nat>

    /** The grid invariant: the three parts below. */
    ghost predicate Valid()
      reads this`model, this`fields, this`filters, this`marks, this`pagination, this`activeField, model, pagination
    {
      StoreValid() && PagingValid() && FocusValid()
    }

    /** The fields are the model's header keys, `_id` last; there is one
        filter term per field, the `_id` term being ''; every visible header
        has a sort class. */
    ghost predicate StoreValid()
      reads this`model, this`fields, this`filters, this`marks, model
    {
      && model.Valid() && model.WellFormed()
      && fields == Names(model.structure)
      && |filters| == |fields| && filters[|fields| - 1] == ""
      && CoversAll(filters, model.rows)
      && (forall f :: f in fields && f != IdField ==> f in marks)
    }

    ghost predicate PagingValid()
      reads this`pagination, pagination
    {
      pagination != null ==> pagination.Valid()
    }

    /** The active field, if any, is a field the setter accepts. */
    ghost predicate FocusValid()
      reads this`fields, this`activeField
    {
      activeField.Some? ==> activeField.value in fields && Selectable(activeField.value)
    }

    /** The rows that pass the filters, in model order (`_getFilteredRows`). */
    function VisibleRows(): seq<Row>
      reads this`model, this`filters, model
      requires CoversAll(filters, model.rows)
    {
      Filter(filters, model.rows)
    }

    /** The current page, or 0 without pagination. */
    function Page(): int
      reads this`pagination, pagination
    {
      if pagination != null then pagination.currentPage else 0
    }

    /** `_getColNum(this.activeField)`: -1 while no field is active. */
    function ActiveColumn(): int
      reads this`activeField, this`fields
    {
      if activeField.None? then -1 else FirstIndex(fields, activeField.value)
    }

    /** The ids of the rows of the current page: none when there are no
        rows, all of them without pagination. */
    function PageOf(rows: seq<Row>): seq<nat>
      reads this`pagination, pagination
      requires pagination != null ==> pagination.Valid() && pagination.rowsCount == |rows|
    {
      if rows == [] then []
      else if pagination == null then Ids(rows)
      else Ids(rows[pagination.Offset()..pagination.Offset() + pagination.Limit()])
    }

    /** The rendering half of what `_makeRows` leaves behind, for a current
        page of `page` before it ran: the pagination counts the visible rows
        and clamps the page, and the rendered ids are that page of the
        visible rows (all of them without pagination). */
    ghost predicate Rendered(page: int)
      reads this`model, this`filters, this`pagination, this`renderedIds, model, pagination
      requires CoversAll(filters, model.rows)
      requires pagination != null ==> pagination.Valid()
    {
      var visible := VisibleRows();
      && (pagination != null ==>
            && pagination.rowsCount == |visible|
            && pagination.currentPage == Clamp(page, pagination.PagesCount()))
      && renderedIds == PageOf(visible)
    }

    /** The focus half of what `_makeRows` leaves behind, for an active cell
        (`row`, `field`) before it ran: with no active row and a row on the
        page, the first rendered row and the first field become active;
        otherwise the active cell stays. */
    ghost predicate Activated(row: Option<nat>, field: Option<string>)
      reads this`fields, this`renderedIds, this`activeRow, this`activeField
      requires |fields| >= 1
    {
      if row.None? && renderedIds != [] then
        && activeRow == Some(renderedIds[0])
        && activeField == (if Selectable(fields[0]) then Some(fields[0]) else field)
      else
        activeRow == row && activeField == field
    }

    /** What `_makeRows` leaves behind when the current page was `page` and
        the active cell (`row`, `field`) before it ran. */
    ghost predicate ShowsPage(page: int, row: Option<nat>, field: Option<string>)
      reads this, model, pagination
      requires Valid()
    {
      Rendered(page) && Activated(row, field)
    }

    /** A rendered page holds at most `rowsPerPage` rows, every one of them
        visible; it is empty only when no row is visible, and without
        pagination it holds every visible row. */
    lemma RenderedPage(page: int)
      requires Valid() && Rendered(page)
      ensures pagination != null ==> |renderedIds| <= pagination.rowsPerPage
      ensures forall k :: 0 <= k < |renderedIds| ==> renderedIds[k] in Ids(VisibleRows())
      ensures renderedIds == [] <==> VisibleRows() == []
      ensures pagination == null ==> renderedIds == Ids(VisibleRows())
    {
      var visible := VisibleRows();
      if visible != [] && pagination != null {
        var offset, limit := pagination.Offset(), pagination.Limit();
        assert 1 <= pagination.currentPage <= pagination.PagesCount();
        forall k | 0 <= k < |renderedIds| ensures renderedIds[k] in Ids(visible) {
          assert Ids(visible)[offset + k] == renderedIds[k];
        }
      }
    }

    /** Binds a loaded model: one field per header key, every filter term
        empty, every header unsorted, pagination from the configuration on
        page 1, nothing active and nothing rendered yet. Rendering (`render`,
        which ends in `_makeRows`) is `MakeRows`. */
    constructor (m: Model, paginated: bool, rowsPerPage: Option<int>)
      requires m.Valid() && m.WellFormed()
      requires paginated && rowsPerPage.Some? ==> rowsPerPage.value > 0
      ensures Valid()
      ensures model == m && fields == Names(m.structure)
      ensures |filters| == |fields| && forall c :: 0 <= c < |filters| ==> filters[c] == ""
      ensures forall f :: f in fields && f != IdField ==> marks[f] == Unsorted
      ensures paginated <==> pagination != null
      ensures pagination != null ==>
        && fresh(pagination)
        && pagination.rowsPerPage == (if rowsPerPage.Some? then rowsPerPage.value else DefaultRowsPerPage)
        && pagination.rowsCount == |m.rows| && pagination.currentPage == 1
      ensures activeRow.None? && activeField.None? && renderedIds == []
      ensures !changed
    {
      var fs: seq<string> := [];
      var terms: seq<string> := [];
      for i := 0 to |m.structure|
        invariant |fs| == i
        invariant forall k :: 0 <= k < i ==> fs[k] == m.structure[k].name
        invariant |terms| == i && forall c :: 0 <= c < i ==> terms[c] == ""
      {
        fs := fs + [m.structure[i].name];
        terms := terms + [""];
      }
      assert fs == Names(m.structure);
      model := m;
      fields := fs;
      filters := terms;
      marks := map f | f in fs && f != IdField :: Unsorted;
      if paginated {
        var perPage := if rowsPerPage.Some? then rowsPerPage.value else DefaultRowsPerPage;
        pagination := new Pagination(perPage, |m.rows|);
      } else {
        pagination := null;
      }
      activeRow := None;
      activeField := None;
      changed := false;
      renderedIds := [];
      new;
      assert fields[|fields| - 1] == IdField;
    }

    /** `_isRowFiltered`: the loop over the row's columns, the id column
        included, clears the flag at any column whose non-empty term does
        not occur in the cell; without a `break` the result is still the
        conjunction over all columns. */
    method IsRowFiltered(row: Row) returns (filtered: bool)
      requires |row.cells| < |filters|
      ensures filtered == Passes(filters, row)
    {
      filtered := true;
      for colNum := 0 to |row.cells| + 1
        invariant filtered == forall c :: 0 <= c < colNum ==> ColumnPasses(filters, row, c)
      {
        var filter := filters[colNum];
        if filter != "" && IndexOf(CellText(row, colNum), filter) == -1 {
          filtered := false;
        }
        assert ColumnPasses(filters, row, colNum) <==> !(filter != "" && IndexOf(CellText(row, colNum), filter) == -1);
      }
    }

    /** `_getFilteredRows`: pushes every row that passes onto a list. */
    method GetFilteredRows() returns (filteredRows: seq<Row>)
      requires CoversAll(filters, model.rows)
      ensures filteredRows == VisibleRows()
    {
      filteredRows := [];
      for i := 0 to |model.rows|
        invariant filteredRows == Filter(filters, model.rows[..i])
      {
        assert model.rows[i] in model.rows;
        var keep := IsRowFiltered(model.rows[i]);
        assert model.rows[..i + 1][..i] == model.rows[..i];
        if keep {
          filteredRows := filteredRows + [model.rows[i]];
        }
      }
      assert model.rows[..|model.rows|] == model.rows;
    }

    /** `_makeRows`: sets the pagination's row count to the number of
        visible rows and renders rows `offset` to `offset + limit` of them;
        with nothing active, activates the first rendered row and field. */
    method MakeRows()
      requires Valid()
      modifies this`renderedIds, this`activeRow, this`activeField, pagination
      ensures Valid()
      ensures pagination != null ==> pagination.rowsPerPage == old(pagination.rowsPerPage)
      ensures ShowsPage(old(Page()), old(activeRow), old(activeField))
    {
      ghost var row, field := activeRow, activeField;
      var filteredRows := GetFilteredRows();
      RenderPage(filteredRows);
      if activeRow.None? {
        SetDefaultActiveField();
      }
      assert Activated(row, field);
    }

    /** The paging half of `_makeRows`: the pagination counts the visible
        rows (clamping its page), and the ids of the rows of the current page
        are rendered; none when no row is visible, all of them without
        pagination. */
    method RenderPage(filteredRows: seq<Row>)
      requires Valid() && filteredRows == VisibleRows()
      modifies this`renderedIds, pagination
      ensures Valid() && Rendered(old(Page()))
      ensures pagination != null ==> pagination.rowsPerPage == old(pagination.rowsPerPage)
    {
      if pagination != null {
        RenderPaged(filteredRows);
      } else {
        renderedIds := PageIds(filteredRows);
      }
    }

    /** `RenderPage` with pagination: the row count comes first, so the page
        is clamped before its rows are taken. */
    method RenderPaged(filteredRows: seq<Row>)
      requires Valid() && filteredRows == VisibleRows() && pagination != null
      modifies this`renderedIds, pagination
      ensures Valid() && Rendered(old(Page()))
      ensures pagination.rowsPerPage == old(pagination.rowsPerPage)
    {
      pagination.SetRowsCount(|filteredRows|);
      assert StoreValid() && filteredRows == VisibleRows();
      renderedIds := PageIds(filteredRows);
    }

    /** The row loop of `_makeRows`: the ids of rows `offset` to
        `offset + limit` of the visible rows, or all of them without
        pagination. */
    method PageIds(rows: seq<Row>) returns (ids: seq<nat>)
      requires pagination != null ==> pagination.Valid() && pagination.rowsCount == |rows|
      ensures ids == PageOf(rows)
    {
      if rows == [] {
        ids := [];
      } else if pagination == null {
        assert rows[0..|rows|] == rows;
        ids := CollectIds(rows, 0, |rows|);
      } else {
        var limit := pagination.Limit();
        var offset := pagination.Offset();
        ids := CollectIds(rows, offset, limit);
      }
    }

    /** `setDefaultActiveField`: the first rendered row, if there is one,
        becomes the active row, and the first field the active field. */
    method SetDefaultActiveField()
      requires Valid()
      modifies this`activeRow, this`activeField
      ensures Valid()
      ensures if renderedIds != [] then
          && activeRow == Some(renderedIds[0])
          && activeField == (if Selectable(fields[0]) then Some(fields[0]) else old(activeField))
        else
          activeRow == old(activeRow) && activeField == old(activeField)
    {
      if renderedIds != [] {
        activeRow := Some(renderedIds[0]);
        SetActiveField(fields[0]);
      }
    }

    /** The active row is one of the rendered rows. */
    predicate ActiveRowShown()
      reads this`activeRow, this`renderedIds
    {
      activeRow.Some? && activeRow.value in renderedIds
    }

    /** The `activeField` setter: ignores '' and `_id`; when the active row
        is not rendered the setter throws before storing the name, so the
        active field stays as it was. */
    method SetActiveField(name: string)
      requires Valid() && name in fields
      modifies this`activeField
      ensures Valid()
      ensures activeField == if Selectable(name) && ActiveRowShown() then Some(name) else old(activeField)
    {
      if name == "" || name == IdField {
        return;
      }
      if !ActiveRowShown() {
        return;
      }
      activeField := Some(name);
    }

    /** In a valid grid, a selectable field is a content column: its
        position is before the id column. */
    lemma ContentColumn(f: string)
      requires Valid() && f in fields && f != IdField
      ensures 0 <= FirstIndex(fields, f) < |fields| - 1
      ensures forall i :: 0 <= i < |model.rows| ==> FirstIndex(fields, f) < |model.rows[i].cells|
    {
      assert fields[|fields| - 1] == IdField;
    }

    /** The setter's guard keeps the cursor off the `_id` column: in a valid
        grid the active field is non-empty and names a content column. */
    lemma ActiveFieldIsContent()
      requires Valid() && activeField.Some?
      ensures activeField.value != ""
      ensures 0 <= ActiveColumn() < |fields| - 1
      ensures forall i :: 0 <= i < |model.rows| ==> ActiveColumn() < |model.rows[i].cells|
    {
      ContentColumn(activeField.value);
    }

    /** Field names are distinct, so a field's position is where it sits. */
    lemma FieldPosition(c: nat)
      requires Valid() && c < |fields|
      ensures FirstIndex(fields, fields[c]) == c
    {
      var k := FirstIndex(fields, fields[c]);
      assert k < c ==> NamesDiffer(model.structure, k, c);
    }

    /** `nextCol`: one field to the right, never onto `_id` (the setter
        refuses it); with no active field, the first field. */
    method NextCol()
      requires Valid()
      modifies this`activeField
      ensures Valid()
      ensures var c := old(ActiveColumn());
        activeField == if c < |fields| - 1 && Selectable(fields[c + 1]) && ActiveRowShown() then Some(fields[c + 1]) else old(activeField)
      ensures activeField != old(activeField) ==> ActiveColumn() == old(ActiveColumn()) + 1
    {
      var activeColNum := ActiveColumn();
      if activeColNum >= |fields| - 1 {
        return;
      }
      SetActiveField(fields[activeColNum + 1]);
      FieldPosition(activeColNum + 1);
    }

    /** `prevCol`: one field to the left; nothing happens at the first field
        or with no active field. */
    method PrevCol()
      requires Valid()
      modifies this`activeField
      ensures Valid()
      ensures var c := old(ActiveColumn());
        activeField == if c > 0 && Selectable(fields[c - 1]) && ActiveRowShown() then Some(fields[c - 1]) else old(activeField)
      ensures old(ActiveColumn()) <= 0 ==> activeField == old(activeField)
      ensures activeField != old(activeField) ==> ActiveColumn() == old(ActiveColumn()) - 1
    {
      var activeColNum := ActiveColumn();
      if activeColNum <= 0 {
        return;
      }
      SetActiveField(fields[activeColNum - 1]);
      FieldPosition(activeColNum - 1);
    }

    /** `firstCol`: the first field. */
    method FirstCol()
      requires Valid()
      modifies this`activeField
      ensures Valid()
      ensures activeField == if Selectable(fields[0]) && ActiveRowShown() then Some(fields[0]) else old(activeField)
    {
      SetActiveField(fields[0]);
    }

    /** `lastCol`: the field just before `_id`; with no content field the
        setter receives `undefined` and nothing changes. */
    method LastCol()
      requires Valid()
      modifies this`activeField
      ensures Valid()
      ensures activeField == if |fields| >= 2 && Selectable(fields[|fields| - 2]) && ActiveRowShown() then Some(fields[|fields| - 2]) else old(activeField)
    {
      if |fields| >= 2 {
        SetActiveField(fields[|fields| - 2]);
      }
    }

    /** `setFilter`: stores the term of one field and re-renders; the page is
        clamped against the new number of visible rows, not reset. */
    method SetFilter(f: string, term: string)
      requires Valid() && f in fields && f != IdField
      modifies this`filters, this`renderedIds, this`activeRow, this`activeField, pagination
      ensures Valid()
      ensures filters == old(filters)[FirstIndex(fields, f) := term]
      ensures ShowsPage(old(Page()), old(activeRow), old(activeField))
    {
      ContentColumn(f);
      filters := filters[FirstIndex(fields, f) := term];
      MakeRows();
    }

    /** `sort`: reorders the model's rows into a permutation sorted by the
        field's column (descending when `rev`), then re-renders. */
    method Sort(f: string, rev: bool)
      requires Valid() && f in fields && f != IdField
      modifies model`rows, this`renderedIds, this`activeRow, this`activeField, pagination
      ensures Valid()
      ensures multiset(model.rows) == multiset(old(model.rows))
      ensures HasColumn(model.rows, FirstIndex(fields, f))
      ensures Ordered(model.rows, FirstIndex(fields, f), rev)
      ensures ShowsPage(old(Page()), old(activeRow), old(activeField))
    {
      ContentColumn(f);
      SortModel(FirstIndex(fields, f), rev);
      ghost var sorted := model.rows;
      MakeRows();
      assert model.rows == sorted;
    }

    /** The model half of `sort`: the library sort of `model.rows` by column
        `colNum` keeps the grid invariant. */
    method SortModel(colNum: nat, rev: bool)
      requires Valid() && colNum < |fields| - 1
      modifies model`rows
      ensures Valid()
      ensures multiset(model.rows) == multiset(old(model.rows))
      ensures HasColumn(model.rows, colNum) && Ordered(model.rows, colNum, rev)
    {
      assert HasColumn(model.rows, colNum) by {
        forall r | r in model.rows ensures colNum < |r.cells| {
          var i :| 0 <= i < |model.rows| && model.rows[i] == r;
        }
      }
      var sorted := SortRows(model.rows, colNum, rev);
      PermutationKeepsDistinct(model.rows, sorted);
      PermutationKeepsWidth(model.rows, sorted, |fields| - 1);
      model.rows := sorted;
      assert model.Valid() && model.WellFormed();
      assert CoversAll(filters, model.rows);
    }

    /** `_sort(headerCell)`: a click on a header advances its class (none or
        `sorted-rev` to `sorted`, `sorted` to `sorted-rev`), clears every
        other header, and sorts descending exactly when the class becomes
        `sorted-rev`. */
    method SortByHeader(f: string)
      requires Valid() && f in fields && f != IdField
      modifies this`marks, model`rows, this`renderedIds, this`activeRow, this`activeField, pagination
      ensures Valid()
      ensures marks == ClickHeader(old(marks), f)
      ensures multiset(model.rows) == multiset(old(model.rows))
      ensures HasColumn(model.rows, FirstIndex(fields, f))
      ensures Ordered(model.rows, FirstIndex(fields, f), marks[f] == Descending)
      ensures ShowsPage(old(Page()), old(activeRow), old(activeField))
    {
      var previous := marks[f];
      marks := ClickHeader(marks, f);
      assert StoreValid();
      if previous == Ascending {
        Sort(f, true);
      } else {
        Sort(f, false);
      }
    }

    /** `insert(rowId)`: adds a blank row with a fresh id before the row
        `rowId`, makes it the active row (null when `rowId` is absent) and
        re-renders. */
    method Insert(rowId: nat)
      requires Valid()
      modifies model`rows, this`renderedIds, this`activeRow, this`activeField, pagination
      ensures Valid()
      ensures old(model.GetRowNumById(rowId)) == -1 ==>
        && model.rows == old(model.rows)
        && ShowsPage(old(Page()), None, old(activeField))
      ensures var k, blank := old(model.GetRowNumById(rowId)), old(model.BlankRow());
        k != -1 ==>
          && activeRow == Some(blank.id)
          && model.rows == InsertAt(old(model.rows), k, blank)
          && ShowsPage(old(Page()), activeRow, old(activeField))
    {
      ghost var page, field := Page(), activeField;
      InsertBlankRow(rowId);
      ghost var row, inserted := activeRow, model.rows;
      MakeRows();
      assert model.rows == inserted;
      assert ShowsPage(page, row, field);
    }

    /** The model half of `insert`: `this.activeRow = this.model.addNewRow(rowId)`
        keeps the grid invariant; the new active row is the one placed at the
        position of `rowId`. */
    method InsertBlankRow(rowId: nat)
      requires Valid()
      modifies model`rows, this`activeRow
      ensures Valid()
      ensures var k, blank := old(model.GetRowNumById(rowId)), old(model.BlankRow());
        if k == -1 then
          && activeRow == None
          && model.rows == old(model.rows)
        else
          && activeRow == Some(blank.id)
          && model.rows == InsertAt(old(model.rows), k, blank)
    {
      activeRow := model.AddNewRow(rowId);
      assert model.Valid() && model.WellFormed();
      assert CoversAll(filters, model.rows);
    }

    /** `remove(rowId)`: drops the row with that id, if any, and re-renders. */
    method Remove(rowId: nat)
      requires Valid()
      modifies model`rows, this`renderedIds, this`activeRow, this`activeField, pagination
      ensures Valid()
      ensures var k := old(model.GetRowNumById(rowId));
        model.rows == if k == -1 then old(model.rows) else RemoveAt(old(model.rows), k)
      ensures ShowsPage(old(Page()), old(activeRow), old(activeField))
    {
      RemoveFromModel(rowId);
      ghost var remaining := model.rows;
      MakeRows();
      assert model.rows == remaining;
    }

    /** The model half of `remove`: `removeRowById` keeps the grid invariant. */
    method RemoveFromModel(rowId: nat)
      requires Valid()
      modifies model`rows
      ensures Valid()
      ensures var k := old(model.GetRowNumById(rowId));
        model.rows == if k == -1 then old(model.rows) else RemoveAt(old(model.rows), k)
    {
      model.RemoveRowById(rowId);
      assert model.Valid() && model.WellFormed();
      assert CoversAll(filters, model.rows);
    }

    /** `goFirstPage` and its three siblings: with pagination, count the
        visible rows, move the page, and re-render (which counts again);
        without pagination nothing happens. */
    method GoFirstPage()
      requires Valid()
      modifies this`renderedIds, this`activeRow, this`activeField, pagination
      ensures Valid()
      ensures pagination == null ==> unchanged(this)
      ensures pagination != null ==>
        var pages := pagination.PagesCount();
        ShowsPage(Clamp(1, pages), old(activeRow), old(activeField))
    {
      if pagination != null {
        var filteredRows := GetFilteredRows();
        pagination.SetRowsCount(|filteredRows|);
        pagination.GoFirstPage();
        MakeRows();
      }
    }

    method GoPrevPage()
      requires Valid()
      modifies this`renderedIds, this`activeRow, this`activeField, pagination
      ensures Valid()
      ensures pagination == null ==> unchanged(this)
      ensures pagination != null ==>
        var pages := pagination.PagesCount();
        ShowsPage(Clamp(Clamp(old(pagination.currentPage), pages) - 1, pages), old(activeRow), old(activeField))
    {
      if pagination != null {
        var filteredRows := GetFilteredRows();
        pagination.SetRowsCount(|filteredRows|);
        pagination.GoPrevPage();
        MakeRows();
      }
    }

    method GoNextPage()
      requires Valid()
      modifies this`renderedIds, this`activeRow, this`activeField, pagination
      ensures Valid()
      ensures pagination == null ==> unchanged(this)
      ensures pagination != null ==>
        var pages := pagination.PagesCount();
        ShowsPage(Clamp(Clamp(old(pagination.currentPage), pages) + 1, pages), old(activeRow), old(activeField))
    {
      if pagination != null {
        var filteredRows := GetFilteredRows();
        pagination.SetRowsCount(|filteredRows|);
        pagination.GoNextPage();
        MakeRows();
      }
    }

    method GoLastPage()
      requires Valid()
      modifies this`renderedIds, this`activeRow, this`activeField, pagination
      ensures Valid()
      ensures pagination == null ==> unchanged(this)
      ensures pagination != null ==>
        var pages := pagination.PagesCount();
        ShowsPage(Clamp(pages, pages), old(activeRow), old(activeField))
    {
      if pagination != null {
        var filteredRows := GetFilteredRows();
        pagination.SetRowsCount(|filteredRows|);
        pagination.GoLastPage();
        MakeRows();
      }
    }

    /** A key typed into the active cell (the `default` branch of the key
        handler): the cell's text is written to the model and the grid is
        marked changed. The active row must exist in the model. */
    method EditActiveCell(text: string)
      requires Valid()
      requires activeRow.Some? && model.GetRowNumById(activeRow.value) >= 0
      requires activeField.Some?
      modifies model`rows, this`changed
      ensures Valid() && changed
      ensures var k, c := old(model.GetRowNumById(activeRow.value)), FirstIndex(fields, activeField.value);
        model.rows == old(model.rows)[k := Row(old(model.rows[k].cells)[c := text], activeRow.value)]
    {
      ContentColumn(activeField.value);
      model.SetCellData(activeRow.value, activeField.value, text);
      changed := true;
    }

    /** The save button: hands the wire form of the model to the data
        service and clears `changed` at once, whatever the request's outcome. */
    method Save() returns (payload: Payload)
      requires Valid()
      modifies this`changed
      ensures Valid() && !changed
      ensures payload == model.Data()
      ensures payload.header == model.structure[..|model.structure| - 1]
      ensures payload.rows == RemoveIndex(model.rows)
    {
      payload := model.Data();
      changed := false;
    }
  }
}
