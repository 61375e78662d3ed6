/**
 * The circular index page, after rendering, as tables of rows of cells, and
 * the parser that turns it into the ordered list of circulars it publishes.
 * The first circular in that list is taken as the latest one.
 */
module IndexParser {
  import opened Base
  import opened Text

  /** An anchor carrying an `href`: its target and its stripped link text. */
  datatype Link = Link(href: string, text: string)

  /**
   * A `td` or `th` cell: its stripped text and the first anchor inside it
   * that carries an `href`, if there is one.
   */
  datatype Cell = Cell(text: string, link: Option<Link>)

  /** A `tr` element: its `td`/`th` cells in document order. */
  datatype Row = Row(cells: seq<Cell>)

  /** A `table` element: its `tr` elements in document order. */
  datatype Table = Table(rows: seq<Row>)

  /** The rendered index page: its `table` elements in document order. */
  type Document = seq<Table>

  /** One published circular as listed in the index table. */
  datatype CircularSummary = CircularSummary(
    href: string,            // link to the circular's detail page, as written in the page
    circularNumber: string,  // the link text; also the key used to skip circulars already handled
    date: string,
    department: string,
    subject: string)

  /** Marker that a link in the first cell points at a circular's detail page. */
  const DetailPattern := "BS_CircularIndexDisplay.aspx?Id="

  /** Base against which the latest circular's relative link is resolved. */
  const RbiBase := "https://rbi.org.in/Scripts/"

  /**
   * The structural test a row must pass to be read as a circular: at least
   * four cells, and a first cell whose first link targets a detail page.
   */
  predicate IsCircularRow(row: Row)
  {
    && |row.cells| >= 4
    && row.cells[0].link.Some?
    && Contains(row.cells[0].link.value.href, DetailPattern)
  }

  /** The record read from a row that passed the structural test. */
  function RowToCircular(row: Row): (c: CircularSummary)
    requires IsCircularRow(row)
    ensures Contains(c.href, DetailPattern)
    ensures c.href == row.cells[0].link.value.href && c.circularNumber == row.cells[0].link.value.text
    ensures c.date == row.cells[1].text && c.department == row.cells[2].text && c.subject == row.cells[3].text
  {
    var link := row.cells[0].link.value;
    CircularSummary(link.href, link.text, row.cells[1].text, row.cells[2].text, row.cells[3].text)
  }

  /** The circulars read from a sequence of rows, kept in row order. */
  function CircularsOfRows(rows: seq<Row>): seq<CircularSummary>
  {
    if rows == [] then []
    else
      var last := rows[|rows| - 1];
      CircularsOfRows(rows[..|rows| - 1]) + (if IsCircularRow(last) then [RowToCircular(last)] else [])
  }

  /** The circulars read from a sequence of tables: table by table, row by row. */
  function CircularsOfTables(tables: Document): seq<CircularSummary>
  {
    if tables == [] then []
    else CircularsOfTables(tables[..|tables| - 1]) + CircularsOfRows(tables[|tables| - 1].rows)
  }

  /** Every row of the document, tables one after another. */
  function AllRows(tables: Document): seq<Row>
  {
    if tables == [] then [] else AllRows(tables[..|tables| - 1]) + tables[|tables| - 1].rows
  }

  /** Scans every table and every row and keeps the rows that pass the structural test. */
  method ParseCircularsTable(doc: Document) returns (circulars: seq<CircularSummary>)
    ensures circulars == CircularsOfTables(doc)
  {
    circulars := [];
    for t := 0 to |doc|
      invariant circulars == CircularsOfTables(doc[..t])
    {
      var rows := doc[t].rows;
      for r := 0 to |rows|
        invariant circulars == CircularsOfTables(doc[..t]) + CircularsOfRows(rows[..r])
      {
        var row := rows[r];
        if |row.cells| >= 4 {
          var firstCell := row.cells[0];
          if firstCell.link.Some? && Contains(firstCell.link.value.href, DetailPattern) {
            circulars := circulars + [RowToCircular(row)];
          }
        }
        assert rows[..r + 1][..r] == rows[..r];
      }
      assert rows[..|rows|] == rows;
      assert doc[..t + 1][..t] == doc[..t];
    }
    assert doc[..|doc|] == doc;
  }

  /** Reading rows commutes with concatenation: no row shifts the circulars of another. */
  lemma {:induction false} CircularsOfRowsAppend(a: seq<Row>, b: seq<Row>)
    ensures CircularsOfRows(a + b) == CircularsOfRows(a) + CircularsOfRows(b)
    decreases |b|
  {
    if b == [] {
      assert a + b == a;
    } else {
      assert (a + b)[..|a + b| - 1] == a + b[..|b| - 1];
      CircularsOfRowsAppend(a, b[..|b| - 1]);
    }
  }

  /** A row that fails the structural test is dropped and shifts nothing around it. */
  lemma MalformedRowDropped(before: seq<Row>, row: Row, after: seq<Row>)
    requires !IsCircularRow(row)
    ensures CircularsOfRows(before + [row] + after) == CircularsOfRows(before + after)
  {
    CircularsOfRowsAppend(before + [row], after);
    CircularsOfRowsAppend(before, [row]);
    CircularsOfRowsAppend(before, after);
    assert [row][..0] == [];
  }

  /** A row that passes the structural test contributes exactly its own record, in place. */
  lemma WellFormedRowKept(before: seq<Row>, row: Row, after: seq<Row>)
    requires IsCircularRow(row)
    ensures CircularsOfRows(before + [row] + after)
         == CircularsOfRows(before) + [RowToCircular(row)] + CircularsOfRows(after)
  {
    CircularsOfRowsAppend(before + [row], after);
    CircularsOfRowsAppend(before, [row]);
    assert [row][..0] == [];
  }

  /** The parse of a document is the parse of all its rows in document order. */
  lemma {:induction false} TablesAreRowsInOrder(doc: Document)
    ensures CircularsOfTables(doc) == CircularsOfRows(AllRows(doc))
  {
    if doc != [] {
      var init := doc[..|doc| - 1];
      TablesAreRowsInOrder(init);
      CircularsOfRowsAppend(AllRows(init), doc[|doc| - 1].rows);
    }
  }

  /** Every parsed record comes from some row that passes the structural test. */
  lemma {:induction false} ParsedRecordHasRow(rows: seq<Row>, c: CircularSummary)
    requires c in CircularsOfRows(rows)
    ensures exists i :: 0 <= i < |rows| && IsCircularRow(rows[i]) && RowToCircular(rows[i]) == c
  {
    var init := rows[..|rows| - 1];
    var last := rows[|rows| - 1];
    if c in CircularsOfRows(init) {
      ParsedRecordHasRow(init, c);
      var i :| 0 <= i < |init| && IsCircularRow(init[i]) && RowToCircular(init[i]) == c;
      assert rows[i] == init[i];
    } else {
      assert IsCircularRow(last) && RowToCircular(last) == c;
    }
  }

  /** Every row that passes the structural test yields a parsed record. */
  lemma {:induction false} RowYieldsParsedRecord(rows: seq<Row>, i: int)
    requires 0 <= i < |rows| && IsCircularRow(rows[i])
    ensures RowToCircular(rows[i]) in CircularsOfRows(rows)
  {
    var init := rows[..|rows| - 1];
    if i < |init| {
      RowYieldsParsedRecord(init, i);
      assert init[i] == rows[i];
    }
  }

  /** A record is parsed exactly when some row passing the structural test yields it. */
  lemma CircularsOfRowsMembership(rows: seq<Row>, c: CircularSummary)
    ensures c in CircularsOfRows(rows)
        <==> exists i :: 0 <= i < |rows| && IsCircularRow(rows[i]) && RowToCircular(rows[i]) == c
  {
    if c in CircularsOfRows(rows) {
      ParsedRecordHasRow(rows, c);
    }
    if exists i :: 0 <= i < |rows| && IsCircularRow(rows[i]) && RowToCircular(rows[i]) == c {
      var i :| 0 <= i < |rows| && IsCircularRow(rows[i]) && RowToCircular(rows[i]) == c;
      RowYieldsParsedRecord(rows, i);
    }
  }

  /**
   * The first parsed record comes from the first row, in document order,
   * that passes the structural test; there is none exactly when no row passes.
   */
  lemma {:induction false} FirstCircularIsFirstWellFormedRow(rows: seq<Row>)
    ensures CircularsOfRows(rows) == [] <==> forall i :: 0 <= i < |rows| ==> !IsCircularRow(rows[i])
    ensures CircularsOfRows(rows) != [] ==>
      exists k :: 0 <= k < |rows| && IsCircularRow(rows[k])
        && (forall i :: 0 <= i < k ==> !IsCircularRow(rows[i]))
        && CircularsOfRows(rows)[0] == RowToCircular(rows[k])
  {
    if rows != [] {
      var init := rows[..|rows| - 1];
      FirstCircularIsFirstWellFormedRow(init);
      assert forall i :: 0 <= i < |init| ==> init[i] == rows[i];
      if CircularsOfRows(init) != [] {
        var k :| 0 <= k < |init| && IsCircularRow(init[k])
          && (forall i :: 0 <= i < k ==> !IsCircularRow(init[i]))
          && CircularsOfRows(init)[0] == RowToCircular(init[k]);
        assert CircularsOfRows(rows)[0] == RowToCircular(rows[k]);
      } else if IsCircularRow(rows[|rows| - 1]) {
        assert CircularsOfRows(rows)[0] == RowToCircular(rows[|rows| - 1]);
      }
    }
  }

  /** The latest circular and the absolute URL of its detail page. */
  datatype LatestInfo = LatestInfo(summary: CircularSummary, url: string)

  /**
   * The latest circular: the first parsed record, with its link resolved
   * against the site base by `join` (`urljoin`, left uninterpreted); absent
   * when the page yields no circular at all.
   */
  function LatestCircular(doc: Document, join: (string, string) -> string): (r: Option<LatestInfo>)
    ensures r.None? <==> forall i :: 0 <= i < |AllRows(doc)| ==> !IsCircularRow(AllRows(doc)[i])
    ensures r.Some? ==>
      exists k :: 0 <= k < |AllRows(doc)| && IsCircularRow(AllRows(doc)[k])
        && (forall i :: 0 <= i < k ==> !IsCircularRow(AllRows(doc)[i]))
        && r.value.summary == RowToCircular(AllRows(doc)[k])
    ensures r.Some? ==> r.value.url == join(RbiBase, r.value.summary.href)
  {
    var circulars := CircularsOfTables(doc);
    TablesAreRowsInOrder(doc);
    FirstCircularIsFirstWellFormedRow(AllRows(doc));
    if circulars == [] then None
    else Some(LatestInfo(circulars[0], join(RbiBase, circulars[0].href)))
  }
}
