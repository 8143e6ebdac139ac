/**
 * `save_to_csv`: nothing is written for an empty record list; otherwise the
 * header is the first record's key order and every record becomes one row
 * of its values under that header. File output and CSV quoting belong to
 * the library and are not part of this model.
 */
module Writer {
  import opened Wrappers
  import opened Book

  /** What the save produces: no file at all, or a header and one row per record. */
  datatype Outcome = NothingToSave | Table(header: seq<string>, rows: seq<seq<string>>)

  /** `books[0].keys()`: every record carries the same keys in the same order. */
  function Keys(r: BookRecord): seq<string> {
    KeyOrder
  }

  /** One `DictWriter` row: the record's value under each header column. */
  function Row(header: seq<string>, r: BookRecord): (row: seq<string>)
    requires forall j :: 0 <= j < |header| ==> header[j] in KeyOrder
    ensures |row| == |header|
    ensures forall j :: 0 <= j < |header| ==> Some(row[j]) == Get(r, header[j])
  {
    if header == [] then []
    else
      OnlyListedKeys(r, header[0]);
      [Get(r, header[0]).value] + Row(header[1..], r)
  }

  function SaveToCsv(books: seq<BookRecord>): (r: Outcome)
    ensures r.NothingToSave? <==> books == []
    ensures r.Table? ==> r.header == KeyOrder && |r.rows| == |books|
    ensures r.Table? ==> forall k :: 0 <= k < |books| ==> |r.rows[k]| == |r.header|
    ensures r.Table? ==> forall k, j :: 0 <= k < |books| && 0 <= j < |r.header| ==>
      Some(r.rows[k][j]) == Get(books[k], r.header[j])
  {
    if books == [] then NothingToSave
    else
      var header := Keys(books[0]);
      Table(header, seq(|books|, k requires 0 <= k < |books| => Row(header, books[k])))
  }

  /** Each row lists its record's values in key order. */
  lemma RowsAreValues(books: seq<BookRecord>)
    requires books != []
    ensures forall k :: 0 <= k < |books| ==> SaveToCsv(books).rows[k] == Values(books[k])
  {
    var out := SaveToCsv(books);
    forall k | 0 <= k < |books|
      ensures out.rows[k] == Values(books[k])
    {
      KeysAndValuesAgree(books[k]);
    }
  }

  /** Rebuilds a record from a row in key order. */
  function FromRow(row: seq<string>): BookRecord
    requires |row| == 23
  {
    BookRecord(row[0], row[1], row[2], row[3], row[4], row[5], row[6], row[7], row[8], row[9], row[10],
               row[11], row[12], row[13], row[14], row[15], row[16], row[17], row[18], row[19], row[20],
               row[21], row[22])
  }

  /** Reading the table back gives the records that were saved. */
  lemma TableReadsBack(books: seq<BookRecord>)
    requires books != []
    ensures forall k :: 0 <= k < |books| ==>
      |SaveToCsv(books).rows[k]| == 23 && FromRow(SaveToCsv(books).rows[k]) == books[k]
  {
    RowsAreValues(books);
  }
}
