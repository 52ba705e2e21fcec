/** The annotation table as the renderer reads it back from its CSV file:
    one row per annotation, every field possibly missing (NaN), and the
    selection of the rows of one attachment. */
module AnnotationRows {

  /** One cell of the table: missing (pandas reads an empty cell as NaN) or
      the text pandas renders for the value. */
  datatype Cell = Missing | Text(s: string)

  /** How an f-string renders a cell: NaN prints as "nan". */
  function Shown(c: Cell): (r: string)
    ensures c.Text? ==> r == c.s
    ensures c.Missing? ==> r == "nan"
  {
    match c
    case Missing => "nan"
    case Text(s) => s
  }

  /** Python truthiness of a cell in `if value:`: NaN is a non-zero float and
      so true, a string is true when non-empty. */
  predicate Truthy(c: Cell) {
    c.Missing? || c.s != ""
  }

  /** The test `value and pd.notna(value)`: present and non-empty. */
  predicate HasContent(c: Cell) {
    c.Text? && c.s != ""
  }

  /** The columns the renderer uses. */
  datatype Row = Row(
    attachmentId: int,
    paperTitle: Cell,
    paperId: Cell,
    attachmentPath: Cell,
    pageLabel: Cell,
    text: Cell,
    comment: Cell,
    typeName: Cell,
    color: Cell)

  /** `annot.query("attachment_id == id")`: the rows of one attachment, in
      table order. */
  function Select(rows: seq<Row>, id: int): (sel: seq<Row>)
    ensures forall k :: 0 <= k < |sel| ==> sel[k].attachmentId == id
    ensures |sel| <= |rows|
    decreases |rows|
  {
    if |rows| == 0 then []
    else
      var n := |rows| - 1;
      Select(rows[..n], id) + (if rows[n].attachmentId == id then [rows[n]] else [])
  }

  /** The selection holds each row of the attachment as often as the table
      does, and no other row. */
  lemma {:induction false} SelectCounts(rows: seq<Row>, id: int, row: Row)
    ensures multiset(Select(rows, id))[row] == if row.attachmentId == id then multiset(rows)[row] else 0
    decreases |rows|
  {
    if |rows| > 0 {
      var n := |rows| - 1;
      SelectCounts(rows[..n], id, row);
      assert rows == rows[..n] + [rows[n]];
    }
  }

  /** A row is selected exactly when it is in the table with the id. */
  lemma SelectHas(rows: seq<Row>, id: int, row: Row)
    ensures row in Select(rows, id) <==> row in rows && row.attachmentId == id
  {
    SelectCounts(rows, id, row);
    assert row in Select(rows, id) <==> row in multiset(Select(rows, id));
    assert row in rows <==> row in multiset(rows);
  }

  /** A selected row lacks its type name exactly when a row of the table
      with the id does. */
  lemma SelectMissing(rows: seq<Row>, id: int)
    ensures (exists k :: 0 <= k < |Select(rows, id)| && Select(rows, id)[k].typeName.Missing?)
        <==> exists k :: 0 <= k < |rows| && rows[k].attachmentId == id && rows[k].typeName.Missing?
  {
    var sel := Select(rows, id);
    if exists k :: 0 <= k < |sel| && sel[k].typeName.Missing? {
      var k :| 0 <= k < |sel| && sel[k].typeName.Missing?;
      SelectHas(rows, id, sel[k]);
    }
    if exists k :: 0 <= k < |rows| && rows[k].attachmentId == id && rows[k].typeName.Missing? {
      var k :| 0 <= k < |rows| && rows[k].attachmentId == id && rows[k].typeName.Missing?;
      SelectHas(rows, id, rows[k]);
      var i :| 0 <= i < |sel| && sel[i] == rows[k];
    }
  }

  /** The selection is empty exactly when no row has the id. */
  lemma SelectEmpty(rows: seq<Row>, id: int)
    ensures Select(rows, id) == [] <==> forall k :: 0 <= k < |rows| ==> rows[k].attachmentId != id
  {
    if Select(rows, id) == [] {
      forall k | 0 <= k < |rows|
        ensures rows[k].attachmentId != id
      {
        SelectCounts(rows, id, rows[k]);
        assert rows[k] in multiset(rows);
      }
    } else {
      var row := Select(rows, id)[0];
      SelectCounts(rows, id, row);
      assert row in multiset(rows);
    }
  }

  /** The first selected row is the first row of the table with the id: the
      one the header of the attachment's file is taken from. */
  lemma {:induction false} SelectFirst(rows: seq<Row>, id: int, j: nat)
    requires j < |rows| && rows[j].attachmentId == id
    requires forall k :: 0 <= k < j ==> rows[k].attachmentId != id
    ensures Select(rows, id) != [] && Select(rows, id)[0] == rows[j]
    decreases |rows|
  {
    var n := |rows| - 1;
    if j < n {
      SelectFirst(rows[..n], id, j);
    } else {
      SelectEmpty(rows[..n], id);
    }
  }
}
