/**
 * The table scrape shared by `get_recent_13f_filings` (13F-HR filings) and
 * `get_recent_politician_trades` (Form 4 filings). The HTTP request and the
 * HTML parser are outside the model: the input is the page already split
 * into table rows and cells, or `None` when fetching or parsing failed.
 */
module Filings {
  import opened Wrappers
  import opened Text

  /** The first `<a>` inside a cell, with its `href` attribute if it has one. */
  datatype Anchor = Anchor(href: Option<string>)

  /** A `<td>`: its text and its first link, if any. */
  datatype Cell = Cell(text: string, anchor: Option<Anchor>)

  /** The `<td>` cells of one `<tr>`. */
  type Row = seq<Cell>

  /** One listed filing: the date filed, the filer (the 13F company or the
      Form 4 filer) and the absolute link to the filing index. */
  datatype FilingRecord = FilingRecord(date: string, name: string, link: string)

  /** The site origin that relative links are resolved against. */
  const SecOrigin: string := "https://www.sec.gov"

  /** Rows with fewer cells than this are not filings. */
  const MinColumns: nat := 5

  /** What one row contributes: nothing, a record, or the `KeyError` of an
      anchor without `href`, which abandons the whole listing. */
  datatype RowOutcome = Skipped | Emitted(record: FilingRecord) | Failed

  function RowOutcomeOf(row: Row): (o: RowOutcome)
    ensures o.Skipped? <==> |row| < MinColumns
    ensures o.Failed? <==> |row| >= MinColumns && row[1].anchor == Some(Anchor(None))
  {
    if |row| < MinColumns then Skipped
    else
      var date, name := Strip(row[3].text), Strip(row[1].text);
      match row[1].anchor
      case None => Emitted(FilingRecord(date, name, ""))
      case Some(Anchor(None)) => Failed
      case Some(Anchor(Some(href))) => Emitted(FilingRecord(date, name, SecOrigin + href))
  }

  /** The records of a run of rows, or `None` once a row fails. */
  function Extract(rows: seq<Row>): (r: Option<seq<FilingRecord>>)
    ensures r.Some? ==> |r.value| <= |rows|
  {
    if rows == [] then Some([]) else Step(RowOutcomeOf(rows[0]), Extract(rows[1..]))
  }

  /** Put one row's outcome in front of the outcome of the rows after it. */
  function Step(o: RowOutcome, rest: Option<seq<FilingRecord>>): (r: Option<seq<FilingRecord>>)
    ensures r.Some? ==> rest.Some? && |r.value| <= |rest.value| + 1
  {
    match o
    case Failed => None
    case Skipped => rest
    case Emitted(rec) => if rest.None? then None else Some([rec] + rest.value)
  }

  /** Concatenation of two partial listings; failure wins. */
  function Combine(x: Option<seq<FilingRecord>>, y: Option<seq<FilingRecord>>): Option<seq<FilingRecord>> {
    if x.Some? && y.Some? then Some(x.value + y.value) else None
  }

  lemma StepCombine(o: RowOutcome, x: Option<seq<FilingRecord>>, y: Option<seq<FilingRecord>>)
    ensures Step(o, Combine(x, y)) == Combine(Step(o, x), y)
  {
    if o.Emitted? && x.Some? && y.Some? {
      assert [o.record] + (x.value + y.value) == ([o.record] + x.value) + y.value;
    }
  }

  /** `soup.find_all('tr')[1:]`: every row but the header row. */
  function Body(rows: seq<Row>): seq<Row> {
    if rows == [] then [] else rows[1..]
  }

  /** The listing the scrape returns for a page: the records of the body
      rows, empty when fetching failed or a link had no `href`. */
  function TableRecords(page: Option<seq<Row>>): (records: seq<FilingRecord>)
    ensures page.None? ==> records == []
    ensures page.Some? ==> |records| <= if |page.value| > 0 then |page.value| - 1 else 0
  {
    match page
    case None => []
    case Some(rows) =>
      match Extract(Body(rows))
      case None => []
      case Some(records) => records
  }

  /** Extraction fails exactly when some row fails. */
  lemma {:induction false} ExtractFailsIff(rows: seq<Row>)
    ensures Extract(rows).None? <==> exists row | row in rows :: RowOutcomeOf(row).Failed?
    decreases |rows|
  {
    if rows != [] {
      ExtractFailsIff(rows[1..]);
      assert forall row | row in rows :: row == rows[0] || row in rows[1..];
    }
  }

  /** Extraction is compositional: the records of `a + b` are those of `a`
      followed by those of `b`, and it fails when either part fails. */
  lemma {:induction false} ExtractConcat(a: seq<Row>, b: seq<Row>)
    ensures Extract(a + b) == Combine(Extract(a), Extract(b))
    decreases |a|
  {
    if a == [] {
      assert a + b == b;
      if Extract(b).Some? { assert [] + Extract(b).value == Extract(b).value; }
    } else {
      assert (a + b)[0] == a[0];
      assert (a + b)[1..] == a[1..] + b;
      ExtractConcat(a[1..], b);
      StepCombine(RowOutcomeOf(a[0]), Extract(a[1..]), Extract(b));
    }
  }

  /** What a single row yields on its own. */
  lemma ExtractRow(row: Row)
    ensures Extract([row]) == match RowOutcomeOf(row)
                              case Skipped => Some([])
                              case Emitted(rec) => Some([rec])
                              case Failed => None
  {
    assert [row][1..] == [];
    match RowOutcomeOf(row)
    case Emitted(rec) => assert [rec] + [] == [rec];
    case Skipped =>
    case Failed =>
  }

  /** A row with fewer than five cells can stand anywhere in the body without
      changing the listing. */
  lemma ShortRowIgnored(rows: seq<Row>, k: nat, row: Row)
    requires 1 <= k <= |rows|
    requires |row| < MinColumns
    ensures TableRecords(Some(rows[..k] + [row] + rows[k..])) == TableRecords(Some(rows))
  {
    var body := rows[1..];
    var front, back := body[..k - 1], body[k - 1..];
    var withRow := rows[..k] + [row] + rows[k..];
    assert Body(withRow) == front + [row] + back;
    assert body == front + back;
    var x, y := Extract(front), Extract(back);
    ExtractRow(row);
    assert Extract([row]) == Some([]);
    ExtractConcat(front, [row]);
    assert Extract(front + [row]) == Combine(x, Some([]));
    if x.Some? {
      assert x.value + [] == x.value;
    }
    assert Combine(x, Some([])) == x;
    ExtractConcat(front + [row], back);
    assert Extract(front + [row] + back) == Combine(x, y);
    ExtractConcat(front, back);
    assert Extract(body) == Combine(x, y);
  }

  /** The header row is never looked at. */
  lemma HeaderIgnored(h1: Row, h2: Row, rest: seq<Row>)
    ensures TableRecords(Some([h1] + rest)) == TableRecords(Some([h2] + rest))
  {
    assert Body([h1] + rest) == rest == Body([h2] + rest);
  }

  /** A body row whose name cell has a link without `href` empties the listing. */
  lemma BrokenLinkEmpties(rows: seq<Row>, k: nat)
    requires 1 <= k < |rows|
    requires |rows[k]| >= MinColumns
    requires rows[k][1].anchor.Some? && rows[k][1].anchor.value.href.None?
    ensures TableRecords(Some(rows)) == []
  {
    assert Body(rows)[k - 1] == rows[k];
    assert RowOutcomeOf(Body(rows)[k - 1]).Failed?;
    ExtractFailsIff(Body(rows));
  }

  /** Every record comes from a row that emitted exactly that record. */
  lemma {:induction false} RecordProvenance(rows: seq<Row>, rec: FilingRecord)
    requires Extract(rows).Some? && rec in Extract(rows).value
    ensures exists row | row in rows :: RowOutcomeOf(row) == Emitted(rec)
    decreases |rows|
  {
    assert rows != [];
    var o := RowOutcomeOf(rows[0]);
    if o != Emitted(rec) {
      assert rec in Extract(rows[1..]).value;
      RecordProvenance(rows[1..], rec);
      var row :| row in rows[1..] && RowOutcomeOf(row) == Emitted(rec);
      assert row in rows;
    }
  }

  /** What an emitted record holds: the date is cell 3's stripped text, the
      name cell 1's, and the link is the site origin followed by cell 1's
      `href`, or empty when cell 1 has no link. */
  lemma EmittedFields(row: Row, rec: FilingRecord)
    requires RowOutcomeOf(row) == Emitted(rec)
    ensures |row| >= MinColumns
    ensures rec.date == Strip(row[3].text) && rec.name == Strip(row[1].text)
    ensures row[1].anchor.None? ==> rec.link == ""
    ensures row[1].anchor.Some? ==>
              row[1].anchor.value.href.Some? &&
              rec.link == SecOrigin + row[1].anchor.value.href.value
  {
  }

  /** Growing the rows one at a time, as the scrape's loop does. */
  lemma ExtractSnoc(rows: seq<Row>, j: nat)
    requires j < |rows|
    ensures Extract(rows[..j + 1]) == Combine(Extract(rows[..j]), Extract([rows[j]]))
  {
    assert rows[..j + 1] == rows[..j] + [rows[j]];
    ExtractConcat(rows[..j], [rows[j]]);
  }

  /** The scrape itself: skip the header, skip short rows, read cells 3 and 1,
      resolve cell 1's link; a missing `href` abandons the listing. */
  method ScrapeFilingTable(page: Option<seq<Row>>) returns (records: seq<FilingRecord>)
    ensures records == TableRecords(page)
  {
    if page.None? {
      return [];
    }
    var body := Body(page.value);
    records := [];
    for j := 0 to |body|
      invariant Extract(body[..j]) == Some(records)
    {
      ExtractSnoc(body, j);
      ExtractRow(body[j]);
      var cols := body[j];
      if |cols| >= MinColumns {
        var dateFiled := Strip(cols[3].text);
        var name := Strip(cols[1].text);
        var link := "";
        if cols[1].anchor.Some? {
          if cols[1].anchor.value.href.None? {
            assert body[j] in body && RowOutcomeOf(body[j]).Failed?;
            ExtractFailsIff(body);
            return [];
          }
          link := SecOrigin + cols[1].anchor.value.href.value;
        }
        records := records + [FilingRecord(dateFiled, name, link)];
      } else {
        assert records + [] == records;
      }
    }
    assert body[..|body|] == body;
  }
}
