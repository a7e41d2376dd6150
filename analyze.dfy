/**
 * The request handler `analyze` (app.py lines 33-123): validation, the
 * per-row loop that assembles one record per row, the sort, and the
 * mapping of every failure to one of the three responses.
 *
 * The vectorizer and classifier are opaque: their output for the frame's
 * text column enters as `predictions`, one vector per row, or None when
 * they raised.
 */
module Analyze {
  import opened Frames
  import opened Scoring
  import opened Ranking

  /** The three outcomes: a 200 with the records, a 400 with its message,
      or the opaque 500. */
  datatype Response = Ok(records: seq<Scored>) | InvalidRequest(message: string) | InternalError

  /** Every row has a prediction vector and builds its record without raising. */
  predicate AllScorable(rows: seq<Row>, preds: seq<seq<int>>) {
    |rows| <= |preds| && forall i :: 0 <= i < |rows| ==> ScoreRow(rows[i], preds[i]).Some?
  }

  /** The records in row order, before sorting. */
  function Assemble(rows: seq<Row>, preds: seq<seq<int>>): (r: seq<Scored>)
    requires AllScorable(rows, preds)
    ensures |r| == |rows|
  {
    seq(|rows|, i requires 0 <= i < |rows| && i < |preds| && ScoreRow(rows[i], preds[i]).Some? =>
                  ScoreRow(rows[i], preds[i]).value)
  }

  /** The response of the handler, as a function of the file field and the
      classifier's output. */
  function Handle(file: Option<Upload>, predictions: Option<seq<seq<int>>>): Response {
    if !FilePresent(file) then InvalidRequest(NoFileMessage)
    else match file.value.content
      case Unparsable => InternalError
      case Table(frame) =>
        if !HasRequiredColumns(frame.columns) then InvalidRequest(MissingColumnsMessage)
        else match predictions
          case None => InternalError
          case Some(preds) =>
            var rows := Rows(frame);
            if AllScorable(rows, preds) then Ok(Ranked(Assemble(rows, preds)))
            else InternalError
  }

  /**
   * The loop over the rows: appends one record per row, and gives up with
   * no records at the first row whose prediction vector is missing or whose
   * record cannot be built.
   */
  method AssembleResults(rows: seq<Row>, preds: seq<seq<int>>) returns (ok: bool, results: seq<Scored>)
    ensures ok <==> AllScorable(rows, preds)
    ensures ok ==> |results| == |rows|
    ensures ok ==> forall i :: 0 <= i < |rows| ==> Some(results[i]) == ScoreRow(rows[i], preds[i])
    ensures !ok ==> results == []
  {
    results := [];
    var i := 0;
    while i < |rows|
      invariant 0 <= i <= |rows|
      invariant |results| == i && i <= |preds|
      invariant forall m :: 0 <= m < i ==> Some(results[m]) == ScoreRow(rows[m], preds[m])
    {
      if i >= |preds| {
        return false, [];
      }
      var record := ScoreRow(rows[i], preds[i]);
      if record.None? {
        return false, [];
      }
      results := results + [record.value];
      i := i + 1;
    }
    ok := true;
  }

  /** The handler: the steps of `Handle`, with the records appended by a loop
      and then sorted in place in an array. */
  method Analyze(file: Option<Upload>, predictions: Option<seq<seq<int>>>) returns (resp: Response)
    ensures resp == Handle(file, predictions)
  {
    if !FilePresent(file) {
      return InvalidRequest(NoFileMessage);
    }
    if file.value.content.Unparsable? {
      return InternalError;
    }
    var frame := file.value.content.frame;
    if !HasRequiredColumns(frame.columns) {
      return InvalidRequest(MissingColumnsMessage);
    }
    if predictions.None? {
      return InternalError;
    }
    var rows := Rows(frame);
    var ok, results := AssembleResults(rows, predictions.value);
    if !ok {
      return InternalError;
    }
    assert results == Assemble(rows, predictions.value);
    var a := new Scored[|results|](i requires 0 <= i < |results| => results[i]);
    assert a[..] == results;
    RankInPlace(a);
    resp := Ok(a[..]);
  }

  /** A missing or unnamed file is rejected before anything else happens. */
  lemma NoFileRejected(file: Option<Upload>, predictions: Option<seq<seq<int>>>)
    requires !FilePresent(file)
    ensures Handle(file, predictions) == InvalidRequest("No file provided")
  {
  }

  /** A table lacking any one required column is rejected with the message
      listing all twelve, whatever the classifier would have said. */
  lemma MissingColumnRejected(file: Option<Upload>, predictions: Option<seq<seq<int>>>, column: string)
    requires FilePresent(file) && file.value.content.Table?
    requires column in RequiredColumns && column !in file.value.content.frame.columns
    ensures Handle(file, predictions) == InvalidRequest(MissingColumnsMessage)
  {
  }

  /** The whole request succeeds exactly when the file is present and parsed,
      the columns are there, the classifier ran and every row scores. */
  lemma SuccessIffEveryRowScores(file: Option<Upload>, predictions: Option<seq<seq<int>>>)
    ensures Handle(file, predictions).Ok? <==>
      FilePresent(file) && file.value.content.Table? &&
      HasRequiredColumns(file.value.content.frame.columns) &&
      predictions.Some? && AllScorable(Rows(file.value.content.frame), predictions.value)
  {
  }

  /**
   * All or nothing: one row whose counter is not a number, or whose
   * prediction vector is missing or has a 1 past the five labels, turns the
   * whole response into the opaque internal error.
   */
  lemma BadRowFailsRequest(file: Option<Upload>, preds: seq<seq<int>>, i: int)
    requires FilePresent(file) && file.value.content.Table?
    requires HasRequiredColumns(file.value.content.frame.columns)
    requires 0 <= i < |file.value.content.frame.records|
    requires var row := Rows(file.value.content.frame)[i];
      i >= |preds| ||
      (exists j :: |Labels| <= j < |preds[i]| && preds[i][j] == 1) ||
      !row.replyCount.Int? || !row.retweetCount.Int? || !row.likeCount.Int? || !row.views.Int?
    ensures Handle(file, Some(preds)) == InternalError
  {
  }

  /**
   * On success there is one record per row; the records are those the rows
   * build, reordered so that scores never increase, with the records of
   * equal score in row order.
   */
  lemma SuccessfulResponse(file: Option<Upload>, predictions: Option<seq<seq<int>>>)
    requires Handle(file, predictions).Ok?
    ensures var rows := Rows(file.value.content.frame);
      var records := Handle(file, predictions).records;
      AllScorable(rows, predictions.value) &&
      |records| == |rows| &&
      SortedDesc(records) &&
      StableReorder(records, Assemble(rows, predictions.value)) &&
      multiset(records) == multiset(Assemble(rows, predictions.value)) &&
      forall i :: 0 <= i < |rows| ==> ScoreRow(rows[i], predictions.value[i]).value in records
  {
    var rows := Rows(file.value.content.frame);
    var assembled := Assemble(rows, predictions.value);
    RankedIsStableSort(assembled);
    StableReorderIsPermutation(Ranked(assembled), assembled);
    forall i | 0 <= i < |rows| ensures ScoreRow(rows[i], predictions.value[i]).value in Ranked(assembled) {
      assert assembled[i] in multiset(assembled);
    }
  }

  /** Columns beyond the twelve, and their order, have no effect on the response. */
  lemma OnlyRequiredColumnsMatter(name: string, f: Frame, g: Frame, predictions: Option<seq<seq<int>>>)
    requires HasRequiredColumns(f.columns) && HasRequiredColumns(g.columns)
    requires |f.records| == |g.records|
    requires forall i, c :: 0 <= i < |f.records| && c in RequiredColumns ==>
               Cell(f.records[i], c) == Cell(g.records[i], c)
    ensures Handle(Some(Upload(name, Table(f))), predictions) ==
            Handle(Some(Upload(name, Table(g))), predictions)
  {
    RowsReadOnlyRequiredColumns(f, g);
  }
}

module Examples {
  import opened Frames
  import opened Scoring
  import opened Analyze

  /** A record holding only the text and the four scored counters; every
      other cell is missing and so reads as null. */
  function Record(text: string, reply: int, retweet: int, like: int, views: int): map<string, Value> {
    map["tweetText" := Str(text), "replyCount" := Int(reply), "retweetCount" := Int(retweet),
        "likeCount" := Int(like), "views" := Int(views)]
  }

  const Quiet: map<string, Value> := Record("B", 0, 0, 0, 0)
  const Relevant: map<string, Value> := Record("A", 10, 5, 20, 100)

  const QuietRow: Row := Row(Str("B"), Null, Null, Null, Null, Null, Int(0), Null, Int(0), Int(0), Int(0), Null)
  const RelevantRow: Row := Row(Str("A"), Null, Null, Null, Null, Null, Int(10), Null, Int(5), Int(20), Int(100), Null)

  /** The cells a record lacks, geo among them, read as null. */
  lemma ExampleRowCells()
    ensures RowOf(Quiet) == QuietRow && RowOf(Relevant) == RelevantRow
  {
  }

  /** A row with no engagement and no symptom scores 0, and its null geo stays null. */
  lemma QuietRowScore()
    ensures var r := ScoreRow(QuietRow, [0, 0, 0, 0, 0]);
      r.Some? && r.value.tweetText == Str("B") && r.value.importance10 == 0 &&
      !r.value.isTb && r.value.detectedSymptoms == [] && r.value.geo == Null
  {
    NoSymptoms();
    ScoredRecord(QuietRow, [0, 0, 0, 0, 0]);
  }

  lemma NoSymptoms()
    ensures Detected([0, 0, 0, 0, 0]) == Some([]) && !IsTb([])
  {
    assert DetectedFrom([0, 0, 0, 0, 0], 1) == Some([]);
  }

  /** Replies 10, retweets 5, likes 20, views 100 and one symptom score
      4 + 1.5 + 4 + 10 + 100 = 119.5, that is 1195 on the scale of ten. */
  lemma RelevantRowScore()
    ensures var r := ScoreRow(RelevantRow, [1, 0, 0, 0, 0]);
      r.Some? && r.value.tweetText == Str("A") && r.value.importance10 == 1195 &&
      r.value.isTb && r.value.detectedSymptoms == ["respiratory"]
  {
    var p := [1, 0, 0, 0, 0];
    assert DetectedFrom(p, 1) == Some([]);
    assert DetectedFrom(p, 0) == Some([Labels[0]] + []);
    assert [Labels[0]] + [] == ["respiratory"];
    ScoredRecord(RelevantRow, p);
  }

  /** Two records in increasing score order swap places. */
  lemma RankTwo(b: Scored, a: Scored)
    requires b.importance10 < a.importance10
    ensures Ranking.Ranked([b, a]) == [a, b]
  {
    assert [b, a][..1] == [b];
    assert Ranking.Ranked([b]) == [b];
  }

  /** A two-row upload whose second row outscores its first comes back
      with the two records swapped. */
  lemma HandleTwoRows(name: string, frame: Frame, p0: seq<int>, p1: seq<int>)
    requires name != "" && HasRequiredColumns(frame.columns) && |frame.records| == 2
    requires ScoreRow(RowOf(frame.records[0]), p0).Some? && ScoreRow(RowOf(frame.records[1]), p1).Some?
    requires ScoreRow(RowOf(frame.records[0]), p0).value.importance10 <
             ScoreRow(RowOf(frame.records[1]), p1).value.importance10
    ensures Handle(Some(Upload(name, Table(frame))), Some([p0, p1])) ==
            Ok([ScoreRow(RowOf(frame.records[1]), p1).value, ScoreRow(RowOf(frame.records[0]), p0).value])
  {
    var preds := [p0, p1];
    var rows := Rows(frame);
    var b, a := ScoreRow(rows[0], p0).value, ScoreRow(rows[1], p1).value;
    assert AllScorable(rows, preds);
    assert Assemble(rows, preds) == [b, a];
    RankTwo(b, a);
  }

  /** The quiet row first and the relevant row second come out in the
      opposite order: highest score first. */
  lemma TwoRowExample()
    ensures var file := Some(Upload("posts.csv", Table(Frame(RequiredColumns, [Quiet, Relevant]))));
      Handle(file, Some([[0, 0, 0, 0, 0], [1, 0, 0, 0, 0]])) ==
      Ok([ScoreRow(RelevantRow, [1, 0, 0, 0, 0]).value, ScoreRow(QuietRow, [0, 0, 0, 0, 0]).value])
  {
    ExampleRowCells();
    QuietRowScore();
    RelevantRowScore();
    HandleTwoRows("posts.csv", Frame(RequiredColumns, [Quiet, Relevant]), [0, 0, 0, 0, 0], [1, 0, 0, 0, 0]);
  }
}
