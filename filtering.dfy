/**
 * The row filter of the grid. Each field has a filter term ('' means no
 * filter); a row is kept when, in every column whose term is non-empty, the
 * cell's text contains the term (case-sensitive `indexOf`). The kept rows
 * keep their model order.
 */
module Filtering {
  import opened RecordModel
  import opened JsString

  /** The text of column `c` of a row: a cell, or, in column `|cells|`, the
      id turned into a string. */
  function CellText(row: Row, c: nat): string
    requires c <= |row.cells|
  {
    if c < |row.cells| then row.cells[c] else NatToString(row.id)
  }

  /** Every column of every row, the id column included, has a term. */
  ghost predicate CoversAll(terms: seq<string>, rows: seq<Row>)
  {
    forall i :: 0 <= i < |rows| ==> |rows[i].cells| < |terms|
  }

  /** One column of a row passes when its term is '' or occurs in the cell text. */
  predicate ColumnPasses(terms: seq<string>, row: Row, c: nat)
    requires c <= |row.cells| && |row.cells| < |terms|
  {
    terms[c] == "" || IndexOf(CellText(row, c), terms[c]) != -1
  }

  /** A row is kept when every one of its columns passes. */
  predicate Passes(terms: seq<string>, row: Row)
    requires |row.cells| < |terms|
  {
    forall c :: 0 <= c <= |row.cells| ==> ColumnPasses(terms, row, c)
  }

  /** The kept rows, in model order. */
  function Filter(terms: seq<string>, rows: seq<Row>): (r: seq<Row>)
    requires CoversAll(terms, rows)
    ensures |r| <= |rows|
  {
    if rows == [] then []
    else
      var last := rows[|rows| - 1];
      Filter(terms, rows[..|rows| - 1]) + (if Passes(terms, last) then [last] else [])
  }

  /** A row is kept exactly when it is one of the rows and it passes. */
  lemma {:induction false} FilterKeepsPassing(terms: seq<string>, rows: seq<Row>, x: Row)
    requires CoversAll(terms, rows)
    ensures x in Filter(terms, rows) <==> x in rows && |x.cells| < |terms| && Passes(terms, x)
  {
    if rows != [] {
      var init := rows[..|rows| - 1];
      assert rows == init + [rows[|rows| - 1]];
      FilterKeepsPassing(terms, init, x);
    }
  }

  /** Filtering commutes with concatenation: the filter keeps the rows' order. */
  lemma {:induction false} FilterAppend(terms: seq<string>, a: seq<Row>, b: seq<Row>)
    requires CoversAll(terms, a) && CoversAll(terms, b)
    ensures CoversAll(terms, a + b)
    ensures Filter(terms, a + b) == Filter(terms, a) + Filter(terms, b)
    decreases |b|
  {
    if b != [] {
      var init := b[..|b| - 1];
      assert (a + b)[..|a + b| - 1] == a + init;
      FilterAppend(terms, a, init);
    } else {
      assert a + b == a;
    }
  }

  /** With every term empty, every row is kept. */
  lemma {:induction false} FilterAllEmpty(terms: seq<string>, rows: seq<Row>)
    requires CoversAll(terms, rows)
    requires forall c :: 0 <= c < |terms| ==> terms[c] == ""
    ensures Filter(terms, rows) == rows
  {
    if rows != [] {
      var init := rows[..|rows| - 1];
      var last := rows[|rows| - 1];
      assert last in rows;
      assert Passes(terms, last);
      assert rows == init + [last];
      FilterAllEmpty(terms, init);
    }
  }

  /** Removing a row the filter hides leaves the kept rows as they were. */
  lemma FilterRemoveHidden(terms: seq<string>, rows: seq<Row>, k: nat)
    requires CoversAll(terms, rows) && k < |rows|
    requires !Passes(terms, rows[k])
    ensures CoversAll(terms, RemoveAt(rows, k))
    ensures Filter(terms, RemoveAt(rows, k)) == Filter(terms, rows)
  {
    var a, x, b := rows[..k], rows[k], rows[k + 1..];
    assert rows == a + ([x] + b);
    assert RemoveAt(rows, k) == a + b;
    assert Filter(terms, [x]) == [] by {
      assert [x][..0] == [];
    }
    FilterAppend(terms, [x], b);
    FilterAppend(terms, a, [x] + b);
    FilterAppend(terms, a, b);
    calc {
      Filter(terms, rows);
      Filter(terms, a) + Filter(terms, [x] + b);
      Filter(terms, a) + ([] + Filter(terms, b));
      { assert [] + Filter(terms, b) == Filter(terms, b); }
      Filter(terms, a + b);
    }
  }

  /** A row passes exactly when every non-empty term occurs somewhere in the
      text of its column: the loop without `break` is still a conjunction. */
  lemma PassesIffSubstrings(terms: seq<string>, row: Row)
    requires |row.cells| < |terms|
    ensures Passes(terms, row) <==>
      forall c :: 0 <= c <= |row.cells| && terms[c] != "" ==>
        exists i :: OccursAt(CellText(row, c), terms[c], i)
  {
    forall c | 0 <= c <= |row.cells| && terms[c] != ""
      ensures ColumnPasses(terms, row, c) <==> exists i :: OccursAt(CellText(row, c), terms[c], i)
    {
      var k := IndexOf(CellText(row, c), terms[c]);
      if k == -1 {
        assert forall i :: !OccursAt(CellText(row, c), terms[c], i);
      }
    }
  }

  /** When the id column's term is empty, a row's id has no say in whether it is kept. */
  lemma IdColumnIgnored(terms: seq<string>, row: Row, otherId: nat)
    requires |row.cells| < |terms|
    requires terms[|row.cells|] == ""
    ensures Passes(terms, row) == Passes(terms, Row(row.cells, otherId))
  {
    var other := Row(row.cells, otherId);
    forall c | 0 <= c <= |row.cells|
      ensures ColumnPasses(terms, row, c) == ColumnPasses(terms, other, c)
    {
      if c < |row.cells| {
        assert CellText(row, c) == CellText(other, c);
      }
    }
  }
}
