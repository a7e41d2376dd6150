/**
 * The uploaded table as the scoring step sees it: cells after null
 * normalisation, the parsed frame, the uploaded file, and the twelve
 * columns the handler demands (app.py lines 36-64).
 */
module Frames {

  datatype Option<+T> = None | Some(value: T)

  /** One cell of the parsed table once missing and NaN cells have been
      replaced by null (app.py line 50). Floating-point cells are not modelled. */
  datatype Value = Null | Str(s: string) | Int(n: int)

  /** Python truthiness of a cell: null, the empty string and zero are falsy. */
  predicate Truthy(v: Value) {
    match v
    case Null => false
    case Str(s) => s != ""
    case Int(n) => n != 0
  }

  /** A parsed table: its header and one record per data row, mapping a
      column name to that row's cell. */
  datatype Frame = Frame(columns: seq<string>, records: seq<map<string, Value>>)

  /** What the CSV parser makes of the uploaded bytes. */
  datatype Content = Unparsable | Table(frame: Frame)

  /** The multipart file field of the request. */
  datatype Upload = Upload(filename: string, content: Content)

  /** A file field is falsy when it is absent or carries an empty file name. */
  predicate FilePresent(file: Option<Upload>) {
    file.Some? && file.value.filename != ""
  }

  const RequiredColumns: seq<string> :=
    ["tweetText", "tweetURL", "tweetAuthor", "handle", "geo", "createdAt",
     "replyCount", "quoteCount", "retweetCount", "likeCount", "views", "bookmarkCount"]

  predicate HasRequiredColumns(columns: seq<string>) {
    forall c :: c in RequiredColumns ==> c in columns
  }

  const NoFileMessage: string := "No file provided"

  /** The 400 message of a table that lacks a required column: the required
      column list as Python's `str` of a list prints it. */
  const MissingColumnsMessage: string :=
    "CSV file must contain the following columns: ['tweetText', 'tweetURL', 'tweetAuthor', "
    + "'handle', 'geo', 'createdAt', 'replyCount', 'quoteCount', 'retweetCount', 'likeCount', "
    + "'views', 'bookmarkCount']"

  /** One data row, read column by column. */
  datatype Row = Row(
    tweetText: Value, tweetURL: Value, tweetAuthor: Value, handle: Value,
    geo: Value, createdAt: Value,
    replyCount: Value, quoteCount: Value, retweetCount: Value,
    likeCount: Value, views: Value, bookmarkCount: Value)

  /** The cell of `record` in `column`; a cell the record lacks reads as null. */
  function Cell(record: map<string, Value>, column: string): Value {
    if column in record then record[column] else Null
  }

  function RowOf(record: map<string, Value>): Row {
    Row(Cell(record, "tweetText"), Cell(record, "tweetURL"), Cell(record, "tweetAuthor"),
        Cell(record, "handle"), Cell(record, "geo"), Cell(record, "createdAt"),
        Cell(record, "replyCount"), Cell(record, "quoteCount"), Cell(record, "retweetCount"),
        Cell(record, "likeCount"), Cell(record, "views"), Cell(record, "bookmarkCount"))
  }

  /** The twelve column lists of the frame, zipped row by row. */
  function Rows(frame: Frame): (rows: seq<Row>)
    ensures |rows| == |frame.records|
  {
    seq(|frame.records|, i requires 0 <= i < |frame.records| => RowOf(frame.records[i]))
  }

  /** Two frames whose records agree on the twelve required columns yield the
      same rows: any further column is ignored. */
  lemma RowsReadOnlyRequiredColumns(f: Frame, g: Frame)
    requires |f.records| == |g.records|
    requires forall i, c :: 0 <= i < |f.records| && c in RequiredColumns ==>
               Cell(f.records[i], c) == Cell(g.records[i], c)
    ensures Rows(f) == Rows(g)
  {
    forall i | 0 <= i < |f.records|
      ensures RowOf(f.records[i]) == RowOf(g.records[i])
    {
      var a, b := f.records[i], g.records[i];
      forall c | c in RequiredColumns ensures Cell(a, c) == Cell(b, c) { }
    }
  }
}
