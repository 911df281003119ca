/**
 * Column sorting in the grid: the comparator handed to
 * `Array.prototype.sort`, an insertion sort standing for that library call,
 * and the three-state header toggle (no class, `sorted`, `sorted-rev`).
 */
module Sorting {
  import opened RecordModel
  import opened JsString

  /** The comparator of `sort(fieldName, rev)` on two cell values: 0 for equal
      values, otherwise -1 or 1 by JavaScript's string `<`, flipped when `rev`. */
  function Compare(a: string, b: string, rev: bool): (r: int)
    ensures -1 <= r <= 1
    ensures r == 0 <==> a == b
  {
    if a == b then 0
    else if rev then (if Less(a, b) then 1 else -1)
    else (if Less(a, b) then -1 else 1)
  }

  /** `a` may come before `b`: equal, or in the comparator's order. */
  predicate InOrder(a: string, b: string, rev: bool)
  {
    Compare(a, b, rev) <= 0
  }

  /** Equal keys compare 0; otherwise ascending order is `<` and descending
      order is `>`; swapping the arguments negates the result. */
  lemma CompareMeaning(a: string, b: string, rev: bool)
    ensures Compare(a, b, rev) == 0 <==> a == b
    ensures Compare(a, b, rev) == -Compare(b, a, rev)
    ensures !rev ==> (InOrder(a, b, rev) <==> a == b || Less(a, b))
    ensures rev ==> (InOrder(a, b, rev) <==> a == b || Less(b, a))
  {
    LessAsymmetric(a, b);
    if a != b {
      LessTotal(a, b);
    }
  }

  lemma InOrderTransitive(a: string, b: string, c: string, rev: bool)
    requires InOrder(a, b, rev) && InOrder(b, c, rev)
    ensures InOrder(a, c, rev)
  {
    CompareMeaning(a, b, rev);
    CompareMeaning(b, c, rev);
    CompareMeaning(a, c, rev);
    if a != b && b != c {
      if rev {
        LessTransitive(c, b, a);
      } else {
        LessTransitive(a, b, c);
      }
    }
  }

  /** Every row has a cell in column `col`. */
  ghost predicate HasColumn(rows: seq<Row>, col: nat)
  {
    forall r :: r in rows ==> col < |r.cells|
  }

  /** The rows are sorted by column `col` under the comparator. */
  ghost predicate Ordered(rows: seq<Row>, col: nat, rev: bool)
    requires HasColumn(rows, col)
  {
    forall i, j :: 0 <= i < j < |rows| ==> InOrder(rows[i].cells[col], rows[j].cells[col], rev)
  }

  /** Places `x` after every row of `s` that does not compare above it. */
  function Insert(x: Row, s: seq<Row>, col: nat, rev: bool): (r: seq<Row>)
    requires col < |x.cells| && HasColumn(s, col)
    ensures multiset(r) == multiset(s) + multiset{x}
    ensures HasColumn(r, col)
  {
    if s == [] then [x]
    else if Compare(x.cells[col], s[0].cells[col], rev) < 0 then [x] + s
    else
      assert s == [s[0]] + s[1..];
      [s[0]] + Insert(x, s[1..], col, rev)
  }

  /** A row that may come before every row of a sorted sequence can head it. */
  lemma ConsOrdered(h: Row, t: seq<Row>, col: nat, rev: bool)
    requires col < |h.cells| && HasColumn(t, col) && Ordered(t, col, rev)
    requires forall j :: 0 <= j < |t| ==> InOrder(h.cells[col], t[j].cells[col], rev)
    ensures HasColumn([h] + t, col) && Ordered([h] + t, col, rev)
  {
    var r := [h] + t;
    forall i, j | 0 <= i < j < |r| ensures InOrder(r[i].cells[col], r[j].cells[col], rev) {
      assert r[j] == t[j - 1];
      if i > 0 {
        assert r[i] == t[i - 1];
      }
    }
  }

  /** Inserting into a sorted sequence gives a sorted sequence. */
  lemma {:induction false} InsertKeepsOrder(x: Row, s: seq<Row>, col: nat, rev: bool)
    requires col < |x.cells| && HasColumn(s, col) && Ordered(s, col, rev)
    ensures Ordered(Insert(x, s, col, rev), col, rev)
  {
    if s == [] {
    } else if Compare(x.cells[col], s[0].cells[col], rev) < 0 {
      forall j | 0 <= j < |s| ensures InOrder(x.cells[col], s[j].cells[col], rev) {
        if j > 0 {
          InOrderTransitive(x.cells[col], s[0].cells[col], s[j].cells[col], rev);
        }
      }
      ConsOrdered(x, s, col, rev);
    } else {
      var t := Insert(x, s[1..], col, rev);
      InsertKeepsOrder(x, s[1..], col, rev);
      CompareMeaning(x.cells[col], s[0].cells[col], rev);
      forall j | 0 <= j < |t| ensures InOrder(s[0].cells[col], t[j].cells[col], rev) {
        assert t[j] in multiset(t);
        if t[j] != x {
          assert t[j] in multiset(s[1..]);
          var k :| 0 <= k < |s[1..]| && s[1..][k] == t[j];
          assert s[k + 1] == t[j];
        }
      }
      ConsOrdered(s[0], t, col, rev);
    }
  }

  /** The library sort of `model.rows`, as an insertion sort: the result is
      a permutation of the rows, sorted by column `col`. */
  method SortRows(rows: seq<Row>, col: nat, rev: bool) returns (sorted: seq<Row>)
    requires HasColumn(rows, col)
    ensures multiset(sorted) == multiset(rows)
    ensures HasColumn(sorted, col) && Ordered(sorted, col, rev)
  {
    sorted := [];
    for i := 0 to |rows|
      invariant multiset(sorted) == multiset(rows[..i])
      invariant HasColumn(sorted, col) && Ordered(sorted, col, rev)
    {
      assert rows[i] in rows;
      InsertKeepsOrder(rows[i], sorted, col, rev);
      sorted := Insert(rows[i], sorted, col, rev);
      assert rows[..i + 1] == rows[..i] + [rows[i]];
    }
    assert rows[..|rows|] == rows;
  }

  /** Sorted ascending, a column's values never decrease; sorted with `rev`,
      they never increase. */
  lemma OrderedKeys(rows: seq<Row>, col: nat, rev: bool, i: nat, j: nat)
    requires HasColumn(rows, col) && Ordered(rows, col, rev)
    requires i < j < |rows|
    ensures var a, b := rows[i].cells[col], rows[j].cells[col];
      if rev then a == b || Less(b, a) else a == b || Less(a, b)
  {
    CompareMeaning(rows[i].cells[col], rows[j].cells[col], rev);
  }

  /** The classes a header cell can carry: none, `sorted`, `sorted-rev`. */
  datatype Mark = Unsorted | Ascending | Descending

  /** The class a clicked header moves to. */
  function NextMark(m: Mark): (r: Mark)
    ensures r != Unsorted
  {
    match m
    case Ascending => Descending
    case Descending => Ascending
    case Unsorted => Ascending
  }

  /** `_sort(headerCell)` on the header classes: the clicked header advances,
      every other header loses its class, so at most one header is marked. */
  function ClickHeader(marks: map<string, Mark>, f: string): (r: map<string, Mark>)
    requires f in marks
    ensures r.Keys == marks.Keys
    ensures forall g :: g in r ==> (r[g] != Unsorted <==> g == f)
  {
    map g | g in marks :: if g == f then NextMark(marks[f]) else Unsorted
  }

  /** Clicking one header again and again gives ascending, descending,
      ascending, ...: the first click sorts ascending unless the header was
      already ascending, and each further click flips the direction. */
  lemma ClickCycle(marks: map<string, Mark>, f: string)
    requires f in marks
    ensures var m1 := ClickHeader(marks, f);
      var m2 := ClickHeader(m1, f);
      && m1[f] == (if marks[f] == Ascending then Descending else Ascending)
      && m2[f] != m1[f]
      && ClickHeader(m2, f) == m1
  {
  }
}
