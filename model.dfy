/**
 * The record store of the grid: a header of (field name, title) columns and
 * rows of cell values. On load every row gets a positional integer id as its
 * last element and the header gets the hidden `_id` column; the wire form
 * strips both again. Rows are edited, removed and inserted by id.
 */
module RecordModel {
  import opened Basics

  /** Name and label of the hidden column holding the row ids. */
  const IdField: string := "_id"
  const IdTitle: string := "id"

  /** One header entry: a field name and its display label. The header is a
      JavaScript object; its key order is this sequence's order. */
  datatype Column = Column(name: string, title: string)

  /** A row as held in memory: the JavaScript array `cells + [id]`, so the id
      sits in column `|cells|`. */
  datatype Row = Row(cells: seq<string>, id: nat)

  /** The wire shape `[header, row1, ..., rowN]`, with no ids. */
  datatype Payload = Payload(header: seq<Column>, rows: seq<seq<string>>)

  /** The field names, in header order. */
  function Names(cols: seq<Column>): seq<string>
  {
    seq(|cols|, i requires 0 <= i < |cols| => cols[i].name)
  }

  /** The row ids, in row order. */
  function Ids(rows: seq<Row>): seq<nat>
  {
    seq(|rows|, i requires 0 <= i < |rows| => rows[i].id)
  }

  /** A row of `n` empty cells. */
  function Blank(n: nat): (r: seq<string>)
    ensures |r| == n
  {
    if n == 0 then [] else Blank(n - 1) + [""]
  }

  /** Every cell of a blank row is ''. */
  lemma {:induction false} BlankCells(n: nat)
    ensures forall i :: 0 <= i < n ==> Blank(n)[i] == ""
  {
    if n > 0 {
      BlankCells(n - 1);
      assert forall i :: 0 <= i < n - 1 ==> Blank(n)[i] == Blank(n - 1)[i];
    }
  }

  /** `_removeIndex`: each row's cells, without the trailing id. */
  function RemoveIndex(rows: seq<Row>): (r: seq<seq<string>>)
    ensures |r| == |rows|
  {
    seq(|rows|, i requires 0 <= i < |rows| => rows[i].cells)
  }

  /** The payload depends on the cells alone: two row sequences give the same
      payload exactly when they agree, row by row, on everything but the ids. */
  lemma RemoveIndexIgnoresIds(a: seq<Row>, b: seq<Row>)
    ensures RemoveIndex(a) == RemoveIndex(b) <==>
      |a| == |b| && forall i :: 0 <= i < |a| ==> a[i].cells == b[i].cells
  {
    if RemoveIndex(a) == RemoveIndex(b) {
      forall i | 0 <= i < |a| ensures a[i].cells == b[i].cells {
        assert RemoveIndex(a)[i] == RemoveIndex(b)[i];
      }
    }
  }

  /** Columns `i` and `j` have different names. Distinctness is stated
      through this pair predicate so that it is used only where a proof
      names the pair. */
  predicate NamesDiffer(cols: seq<Column>, i: nat, j: nat)
    requires i < |cols| && j < |cols|
  {
    cols[i].name != cols[j].name
  }

  /** Rows `i` and `j` have different ids. */
  predicate IdsDiffer(rows: seq<Row>, i: nat, j: nat)
    requires i < |rows| && j < |rows|
  {
    rows[i].id != rows[j].id
  }

  ghost predicate DistinctNames(cols: seq<Column>)
  {
    forall i: nat, j: nat :: i < j < |cols| ==> NamesDiffer(cols, i, j)
  }

  ghost predicate DistinctIds(rows: seq<Row>)
  {
    forall i: nat, j: nat :: i < j < |rows| ==> IdsDiffer(rows, i, j)
  }

  /** The header with the `_id` key deleted (`delete structure._id`). */
  function WithoutId(cols: seq<Column>): (r: seq<Column>)
    ensures forall c :: c in r <==> c in cols && c.name != IdField
    ensures |r| <= |cols|
  {
    if cols == [] then []
    else (if cols[0].name == IdField then [] else [cols[0]]) + WithoutId(cols[1..])
  }

  /** Deleting `_id` from a header that got it appended gives the header back. */
  lemma {:induction false} WithoutIdAppended(cols: seq<Column>, title: string)
    requires IdField !in Names(cols)
    ensures WithoutId(cols + [Column(IdField, title)]) == cols
  {
    if cols == [] {
    } else {
      assert Names(cols)[0] == cols[0].name;
      assert (cols + [Column(IdField, title)])[1..] == cols[1..] + [Column(IdField, title)];
      assert Names(cols[1..]) == Names(cols)[1..];
      WithoutIdAppended(cols[1..], title);
    }
  }

  /** In a header whose names are distinct and whose last key is `_id`, the
      id column is found at the last position. */
  lemma IdColumnIsLast(cols: seq<Column>)
    requires |cols| >= 1 && cols[|cols| - 1].name == IdField && DistinctNames(cols)
    ensures FirstIndex(Names(cols), IdField) == |cols| - 1
  {
    var k := FirstIndex(Names(cols), IdField);
    assert Names(cols)[|cols| - 1] == IdField;
    assert k < |cols| - 1 ==> NamesDiffer(cols, k, |cols| - 1);
  }

  /** `_addIndex`: append the positional ids 0, 1, 2, ... to the rows. */
  method AddIndex(data: seq<seq<string>>) returns (rows: seq<Row>)
    ensures |rows| == |data|
    ensures forall i :: 0 <= i < |data| ==> rows[i] == Row(data[i], i)
  {
    rows := [];
    var id := 0;
    while id < |data|
      invariant id <= |data| && |rows| == id
      invariant forall i :: 0 <= i < id ==> rows[i] == Row(data[i], i)
    {
      rows := rows + [Row(data[id], id)];
      id := id + 1;
    }
  }

  /** Rows numbered by position have pairwise distinct ids. */
  lemma PositionalIdsDistinct(rows: seq<Row>, data: seq<seq<string>>)
    requires |rows| == |data|
    requires forall i :: 0 <= i < |data| ==> rows[i] == Row(data[i], i)
    ensures DistinctIds(rows)
    ensures RemoveIndex(rows) == data
  {
  }

  /** The rows without the one at position `k`. */
  function RemoveAt(rows: seq<Row>, k: nat): (r: seq<Row>)
    requires k < |rows|
    ensures |r| == |rows| - 1
  {
    rows[..k] + rows[k + 1..]
  }

  /** The rows before position `k` keep their place, those after it move up
      by one. */
  lemma RemoveAtPositions(rows: seq<Row>, k: nat)
    requires k < |rows|
    ensures forall i :: 0 <= i < k ==> RemoveAt(rows, k)[i] == rows[i]
    ensures forall i :: k <= i < |rows| - 1 ==> RemoveAt(rows, k)[i] == rows[i + 1]
  {
  }

  /** The rows with `row` placed at position `k`. */
  function InsertAt(rows: seq<Row>, k: nat, row: Row): (r: seq<Row>)
    requires k <= |rows|
    ensures |r| == |rows| + 1 && r[k] == row
  {
    rows[..k] + [row] + rows[k..]
  }

  /** Removing the row just placed at `k` gives back the rows. */
  lemma RemoveInsert(rows: seq<Row>, k: nat, row: Row)
    requires k <= |rows|
    ensures RemoveAt(InsertAt(rows, k, row), k) == rows
  {
    var r := InsertAt(rows, k, row);
    assert r[..k] == rows[..k];
    assert r[k + 1..] == rows[k..];
  }

  /** The rows before position `k` keep their place, those from `k` on move
      down by one. */
  lemma InsertAtPositions(rows: seq<Row>, k: nat, row: Row)
    requires k <= |rows|
    ensures forall i :: 0 <= i < k ==> InsertAt(rows, k, row)[i] == rows[i]
    ensures forall i :: k < i <= |rows| ==> InsertAt(rows, k, row)[i] == rows[i - 1]
  {
  }

  /** Removing one row keeps the ids distinct. */
  lemma RemoveKeepsDistinct(rows: seq<Row>, k: nat)
    requires DistinctIds(rows) && k < |rows|
    ensures DistinctIds(RemoveAt(rows, k))
  {
    var r := RemoveAt(rows, k);
    forall i: nat, j: nat | i < j < |r| ensures IdsDiffer(r, i, j) {
      var i' := if i < k then i else i + 1;
      var j' := if j < k then j else j + 1;
      assert r[i] == rows[i'] && r[j] == rows[j'];
      assert IdsDiffer(rows, i', j');
    }
  }

  /** Inserting a row whose id is above every present id keeps the ids distinct. */
  lemma InsertFreshKeepsDistinct(rows: seq<Row>, k: nat, row: Row)
    requires DistinctIds(rows) && k <= |rows|
    requires forall i :: 0 <= i < |rows| ==> rows[i].id < row.id
    ensures DistinctIds(InsertAt(rows, k, row))
  {
    var r := InsertAt(rows, k, row);
    forall i: nat, j: nat | i < j < |r| ensures IdsDiffer(r, i, j) {
      if i != k && j != k {
        var i' := if i < k then i else i - 1;
        var j' := if j < k then j else j - 1;
        assert r[i] == rows[i'] && r[j] == rows[j'];
        assert IdsDiffer(rows, i', j');
      }
    }
  }

  /** A permutation of rows with distinct ids has distinct ids. */
  lemma PermutationKeepsDistinct(rows: seq<Row>, perm: seq<Row>)
    requires DistinctIds(rows) && multiset(rows) == multiset(perm)
    ensures DistinctIds(perm)
  {
    forall i: nat, j: nat | i < j < |perm| ensures IdsDiffer(perm, i, j) {
      var p, q := PermutationPositions(rows, perm, i, j);
      if p < q {
        assert IdsDiffer(rows, p, q);
      } else {
        assert IdsDiffer(rows, q, p);
      }
    }
  }

  /** A permutation of rows that all have `n` cells has rows of `n` cells. */
  lemma PermutationKeepsWidth(rows: seq<Row>, perm: seq<Row>, n: nat)
    requires multiset(rows) == multiset(perm)
    requires forall i :: 0 <= i < |rows| ==> |rows[i].cells| == n
    ensures forall i :: 0 <= i < |perm| ==> |perm[i].cells| == n
  {
    forall i | 0 <= i < |perm| ensures |perm[i].cells| == n {
      assert perm[i] in multiset(rows);
      var j :| 0 <= j < |rows| && rows[j] == perm[i];
    }
  }

  /** Appending the `_id` column to a header without it keeps the names
      distinct, puts `_id` last, and deleting it again gives the header back. */
  lemma HeaderWithId(header: seq<Column>)
    requires DistinctNames(header) && IdField !in Names(header)
    ensures var s := header + [Column(IdField, IdTitle)];
      && DistinctNames(s)
      && FirstIndex(Names(s), IdField) == |header|
      && WithoutId(s) == header
  {
    var s := header + [Column(IdField, IdTitle)];
    forall i: nat, j: nat | i < j < |s| ensures NamesDiffer(s, i, j) {
      if j == |header| {
        assert Names(header)[i] == header[i].name;
      } else {
        assert s[i] == header[i] && s[j] == header[j];
        assert NamesDiffer(header, i, j);
      }
    }
    IdColumnIsLast(s);
    WithoutIdAppended(header, IdTitle);
  }

  /** The largest id of the rows, or 0 when there are none. */
  function MaxId(rows: seq<Row>): nat
  {
    if rows == [] then 0
    else
      var m := MaxId(rows[..|rows| - 1]);
      if rows[|rows| - 1].id > m then rows[|rows| - 1].id else m
  }

  /** `MaxId` is an upper bound of the ids that is one of them, unless there
      are no rows or every id is 0; so `MaxId + 1` is an id no row has. */
  lemma {:induction false} MaxIdBounds(rows: seq<Row>)
    ensures forall i :: 0 <= i < |rows| ==> rows[i].id <= MaxId(rows)
    ensures MaxId(rows) == 0 || exists i :: 0 <= i < |rows| && rows[i].id == MaxId(rows)
  {
    if rows != [] {
      var init := rows[..|rows| - 1];
      MaxIdBounds(init);
      assert forall i :: 0 <= i < |init| ==> rows[i] == init[i];
    }
  }

  class Model {
    /** `_structure`: the header, ending with the `_id` column. */
    var structure: seq<Column>
    /** `_rows`: the records in display order. */
    var rows: seq<Row>

    /** The header ends with `_id` and has distinct keys; row ids are distinct. */
    ghost predicate Valid()
      reads this
    {
      && |structure| >= 1
      && structure[|structure| - 1] == Column(IdField, IdTitle)
      && DistinctNames(structure)
      && DistinctIds(rows)
    }

    /** Every row has one cell per non-id header key. */
    ghost predicate WellFormed()
      reads this
    {
      forall i :: 0 <= i < |rows| ==> |rows[i].cells| == |structure| - 1
    }

    /** Loads the wire form: appends `_id` to the header and the positional
        ids to the rows. */
    constructor (header: seq<Column>, data: seq<seq<string>>)
      requires DistinctNames(header) && IdField !in Names(header)
      ensures Valid()
      ensures structure == header + [Column(IdField, IdTitle)]
      ensures |rows| == |data|
      ensures forall i :: 0 <= i < |data| ==> rows[i] == Row(data[i], i)
      ensures FirstIndex(Names(structure), IdField) == |header|
      ensures WellFormed() <==> forall i :: 0 <= i < |data| ==> |data[i]| == |header|
      ensures Data() == Payload(header, data)
    {
      var indexed := AddIndex(data);
      structure := header + [Column(IdField, IdTitle)];
      rows := indexed;
      new;
      HeaderWithId(header);
      PositionalIdsDistinct(rows, data);
      assert WellFormed() <==> forall i :: 0 <= i < |data| ==> |data[i]| == |header| by {
        if WellFormed() {
          forall i | 0 <= i < |data| ensures |data[i]| == |header| {
            assert rows[i] in rows;
          }
        }
      }
    }

    /** The `data` getter: the header without `_id` followed by every row
        without its id, in the current row order. It only reads. */
    function Data(): (p: Payload)
      reads this
      ensures |p.rows| == |rows|
      ensures forall i :: 0 <= i < |rows| ==> p.rows[i] == rows[i].cells
      ensures Valid() ==> p.header == structure[..|structure| - 1]
    {
      assert Valid() ==> WithoutId(structure) == structure[..|structure| - 1] by {
        if Valid() {
          var header := structure[..|structure| - 1];
          assert structure == header + [Column(IdField, IdTitle)];
          forall i | 0 <= i < |header| ensures Names(header)[i] != IdField {
            assert NamesDiffer(structure, i, |header|);
          }
          WithoutIdAppended(header, IdTitle);
        }
      }
      Payload(WithoutId(structure), RemoveIndex(rows))
    }

    /** `getRowNumById`: the position of the first row with this id, or -1. */
    function GetRowNumById(id: nat): (k: int)
      reads this
      ensures -1 <= k < |rows|
      ensures k >= 0 ==> rows[k].id == id && forall i :: 0 <= i < k ==> rows[i].id != id
      ensures k == -1 <==> forall i :: 0 <= i < |rows| ==> rows[i].id != id
    {
      var k := FirstIndex(Ids(rows), id);
      assert k >= 0 ==> forall i :: 0 <= i < k ==> Ids(rows)[..k][i] == rows[i].id;
      assert k == -1 ==> forall i :: 0 <= i < |rows| ==> Ids(rows)[i] == rows[i].id;
      k
    }

    /** `getColNum`: the position of a key in header order, or null. */
    method GetColNum(f: string) returns (c: Option<nat>)
      ensures c.None? <==> f !in Names(structure)
      ensures c.Some? ==> c.value < |structure| && structure[c.value].name == f
      ensures c.Some? ==> forall i :: 0 <= i < c.value ==> structure[i].name != f
    {
      var index := 0;
      while index < |structure|
        invariant 0 <= index <= |structure|
        invariant forall i :: 0 <= i < index ==> structure[i].name != f
      {
        if structure[index].name == f {
          assert Names(structure)[index] == f;
          return Some(index);
        }
        index := index + 1;
      }
      assert forall i :: 0 <= i < |structure| ==> Names(structure)[i] != f;
      return None;
    }

    /** `_getNextId`: one more than the largest id, counting from 0. */
    method GetNextId() returns (next: nat)
      ensures next == MaxId(rows) + 1
    {
      var maxId := 0;
      for i := 0 to |rows|
        invariant maxId == MaxId(rows[..i])
      {
        assert rows[..i + 1][..i] == rows[..i];
        if rows[i].id > maxId {
          maxId := rows[i].id;
        }
      }
      assert rows[..|rows|] == rows;
      next := maxId + 1;
    }

    /** `setCellData`: overwrite one cell of the row with this id. The id must
        exist and the field must name a content column of that row. */
    method SetCellData(id: nat, f: string, v: string)
      requires Valid()
      requires GetRowNumById(id) >= 0
      requires 0 <= FirstIndex(Names(structure), f) < |rows[GetRowNumById(id)].cells|
      modifies this`rows
      ensures Valid() && structure == old(structure)
      ensures var k, c := old(GetRowNumById(id)), old(FirstIndex(Names(structure), f));
        rows == old(rows)[k := Row(old(rows[k].cells)[c := v], id)]
      ensures old(WellFormed()) ==> WellFormed()
    {
      var rowNum := GetRowNumById(id);
      var colNum := GetColNum(f);
      FirstIndexAt(Names(structure), f, colNum.value);
      var row := rows[rowNum];
      rows := rows[rowNum := Row(row.cells[colNum.value := v], row.id)];
      forall i: nat, j: nat | i < j < |rows| ensures IdsDiffer(rows, i, j) {
        assert IdsDiffer(old(rows), i, j);
      }
    }

    /** `removeRowById`: drop the first row with this id; nothing happens
        when no row has it. */
    method RemoveRowById(id: nat)
      requires Valid()
      modifies this`rows
      ensures Valid() && structure == old(structure)
      ensures var k := old(GetRowNumById(id));
        rows == if k == -1 then old(rows) else RemoveAt(old(rows), k)
      ensures old(WellFormed()) ==> WellFormed()
    {
      var rowNum := GetRowNumById(id);
      if rowNum != -1 {
        RemoveKeepsDistinct(rows, rowNum);
        rows := RemoveAt(rows, rowNum);
      }
    }

    /** The row `addNewRow` adds: one '' cell per header key but `_id`,
        and an id above every present one. */
    function BlankRow(): (r: Row)
      reads this
      requires |structure| >= 1
      ensures |r.cells| == |structure| - 1
      ensures forall i :: 0 <= i < |rows| ==> rows[i].id < r.id
    {
      MaxIdBounds(rows);
      Row(Blank(|structure| - 1), MaxId(rows) + 1)
    }

    /** `addNewRow`: insert a blank row with a fresh id just before the row
        with id `before`, and return the fresh id; null when `before` is absent. */
    method AddNewRow(before: nat) returns (newId: Option<nat>)
      requires Valid()
      modifies this`rows
      ensures Valid() && structure == old(structure)
      ensures var k := old(GetRowNumById(before));
        if k == -1 then newId == None && rows == old(rows)
        else
          && newId == Some(old(BlankRow()).id)
          && rows == InsertAt(old(rows), k, old(BlankRow()))
      ensures old(WellFormed()) ==> WellFormed()
    {
      var rowNum := GetRowNumById(before);
      if rowNum != -1 {
        var fieldsLength := |structure|;
        var nextId := GetNextId();
        var newItem := Row(Blank(fieldsLength - 1), nextId);
        assert newItem == BlankRow();
        InsertFreshKeepsDistinct(rows, rowNum, newItem);
        InsertAtPositions(rows, rowNum, newItem);
        rows := InsertAt(rows, rowNum, newItem);
        newId := Some(nextId);
      } else {
        newId := None;
      }
    }
  }
}
