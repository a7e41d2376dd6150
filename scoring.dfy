/**
 * The per-row part of the handler: the detected symptom labels, the
 * relevance flag, the importance score, the normalised geo cell and the
 * output record built from them (app.py lines 30 and 74-107).
 */
module Scoring {
  import opened Frames

  /** Position j of a prediction vector stands for label j. */
  const Labels: seq<string> := ["respiratory", "fever", "fatigue", "pain", "gastrointestinal"]

  lemma LabelsDistinct()
    ensures forall a, b :: 0 <= a < b < |Labels| ==> Labels[a] != Labels[b]
  {
  }

  /** The index of a label in the label list. */
  function Position(l: string): (k: nat)
    requires l in Labels
    ensures k < |Labels| && Labels[k] == l
  {
    if l == Labels[0] then 0
    else if l == Labels[1] then 1
    else if l == Labels[2] then 2
    else if l == Labels[3] then 3
    else 4
  }

  /**
   * The list comprehension over positions j, j+1, ... of a prediction
   * vector: the label of every position whose entry is exactly 1. Reading
   * the label of a position past the label list raises, so the result is
   * None as soon as some such position holds a 1.
   */
  function DetectedFrom(p: seq<int>, j: nat): (r: Option<seq<string>>)
    requires j <= |p|
    decreases |p| - j
    ensures r.Some? <==> forall k :: j <= k < |p| && p[k] == 1 ==> k < |Labels|
  {
    if j == |p| then Some([])
    else if p[j] == 1 && j >= |Labels| then None
    else
      match DetectedFrom(p, j + 1)
      case None => None
      case Some(rest) => if p[j] == 1 then Some([Labels[j]] + rest) else Some(rest)
  }

  /** What the comprehension from position j collects: labels of positions
      from j on whose entry is 1, each once, in label order. */
  lemma {:induction false} DetectedFromLabels(p: seq<int>, j: nat)
    requires j <= |p| && DetectedFrom(p, j).Some?
    decreases |p| - j
    ensures var d := DetectedFrom(p, j).value;
      |d| <= (if j < |Labels| then |Labels| - j else 0) &&
      (forall m :: 0 <= m < |d| ==> d[m] in Labels && j <= Position(d[m])) &&
      (forall k :: 0 <= k < |Labels| ==> (Labels[k] in d <==> j <= k < |p| && p[k] == 1)) &&
      (forall m, n :: 0 <= m < n < |d| ==> Position(d[m]) < Position(d[n]))
  {
    if j < |p| {
      DetectedFromLabels(p, j + 1);
      LabelsDistinct();
    }
  }

  /** The detected symptoms of a prediction vector, or None when a 1 lies
      past the five labels. */
  function Detected(p: seq<int>): (r: Option<seq<string>>)
    ensures r.Some? <==> forall k :: 0 <= k < |p| && p[k] == 1 ==> k < |Labels|
  {
    DetectedFrom(p, 0)
  }

  /** The detected symptoms are exactly the labels whose entry is 1, in
      label order, so a subsequence of the label list of at most five. */
  lemma DetectedLabels(p: seq<int>)
    requires Detected(p).Some?
    ensures var d := Detected(p).value;
      |d| <= |Labels| &&
      (forall m :: 0 <= m < |d| ==> d[m] in Labels) &&
      (forall k :: 0 <= k < |Labels| ==> (Labels[k] in d <==> k < |p| && p[k] == 1)) &&
      (forall m, n :: 0 <= m < n < |d| ==> Position(d[m]) < Position(d[n]))
  {
    DetectedFromLabels(p, 0);
  }

  /** Python's `any` over a list of strings: scans for a non-empty element. */
  predicate AnyTruthy(items: seq<string>)
    decreases |items|
  {
    items != [] && (items[0] != "" || AnyTruthy(items[1..]))
  }

  /** The relevance flag of a list of detected labels. */
  predicate IsTb(detected: seq<string>) {
    AnyTruthy(detected)
  }

  /** Since no label is the empty string, a vector is relevant exactly when
      some label was detected. */
  lemma RelevantIffDetected(p: seq<int>)
    requires Detected(p).Some?
    ensures IsTb(Detected(p).value) <==> Detected(p).value != []
  {
    var d := Detected(p).value;
    DetectedLabels(p);
    if d != [] {
      assert d[0] in Labels;
      assert d[0] != "";
    }
  }

  /** The relevance boost as the integer 0 or 1 it is multiplied as. */
  function Boost(isTb: bool): int {
    if isTb then 1 else 0
  }

  /**
   * The importance score times ten, so that it is an exact integer:
   * 4 * reply + 3 * retweet + 2 * like + views + 1000 when relevant. Any of
   * the four counters that is not a number makes the arithmetic raise.
   */
  function Score10(reply: Value, retweet: Value, like: Value, views: Value, isTb: bool): (r: Option<int>)
    ensures r.Some? <==> reply.Int? && retweet.Int? && like.Int? && views.Int?
  {
    if reply.Int? && retweet.Int? && like.Int? && views.Int? then
      Some(4 * reply.n + 3 * retweet.n + 2 * like.n + 1 * views.n + 1000 * Boost(isTb))
    else None
  }

  /** Relevance adds exactly 100 to the score (1000 on the scale of ten). */
  lemma RelevanceBoost(reply: Value, retweet: Value, like: Value, views: Value)
    requires Score10(reply, retweet, like, views, false).Some?
    ensures Score10(reply, retweet, like, views, true).Some?
    ensures Score10(reply, retweet, like, views, true).value ==
            Score10(reply, retweet, like, views, false).value + 1000
  {
  }

  /** The score grows with each of the four counters it weighs. */
  lemma ScoreMonotone(reply: int, retweet: int, like: int, views: int, isTb: bool,
                      reply': int, retweet': int, like': int, views': int)
    requires reply <= reply' && retweet <= retweet' && like <= like' && views <= views'
    ensures Score10(Int(reply), Int(retweet), Int(like), Int(views), isTb).value <=
            Score10(Int(reply'), Int(retweet'), Int(like'), Int(views'), isTb).value
  {
  }

  /** A falsy geo cell becomes null; any other passes through. */
  function NormalizeGeo(geo: Value): (r: Value)
    ensures r == Null <==> !Truthy(geo)
    ensures r != Null ==> r == geo
  {
    if Truthy(geo) then geo else Null
  }

  /** The JSON object the handler builds for one row; the score is scaled by ten. */
  datatype Scored = Scored(
    tweetText: Value, tweetURL: Value, tweetAuthor: Value, handle: Value,
    geo: Value, createdAt: Value,
    isTb: bool, detectedSymptoms: seq<string>, importance10: int,
    replyCount: Value, quoteCount: Value, retweetCount: Value,
    likeCount: Value, views: Value, bookmarkCount: Value)

  /** The record of one row and its prediction vector, or None when building it raises. */
  function ScoreRow(row: Row, p: seq<int>): (r: Option<Scored>)
    ensures r.Some? <==>
      Detected(p).Some? &&
      row.replyCount.Int? && row.retweetCount.Int? && row.likeCount.Int? && row.views.Int?
  {
    match Detected(p)
    case None => None
    case Some(detected) =>
      var isTb := IsTb(detected);
      match Score10(row.replyCount, row.retweetCount, row.likeCount, row.views, isTb)
      case None => None
      case Some(score) =>
        Some(Scored(row.tweetText, row.tweetURL, row.tweetAuthor, row.handle,
                    NormalizeGeo(row.geo), row.createdAt,
                    isTb, detected, score,
                    row.replyCount, row.quoteCount, row.retweetCount,
                    row.likeCount, row.views, row.bookmarkCount))
  }

  /**
   * What a record says about its row: every input field is echoed, geo is
   * null exactly when the input geo is falsy, the flag is set exactly when
   * some symptom was detected, and the score follows the weighting.
   */
  lemma ScoredRecord(row: Row, p: seq<int>)
    requires ScoreRow(row, p).Some?
    ensures var r := ScoreRow(row, p).value;
      r.tweetText == row.tweetText && r.tweetURL == row.tweetURL &&
      r.tweetAuthor == row.tweetAuthor && r.handle == row.handle &&
      r.createdAt == row.createdAt &&
      r.replyCount == row.replyCount && r.quoteCount == row.quoteCount &&
      r.retweetCount == row.retweetCount && r.likeCount == row.likeCount &&
      r.views == row.views && r.bookmarkCount == row.bookmarkCount &&
      (r.geo == Null <==> !Truthy(row.geo)) && (r.geo != Null ==> r.geo == row.geo) &&
      r.detectedSymptoms == Detected(p).value &&
      (r.isTb <==> r.detectedSymptoms != []) &&
      r.importance10 == 4 * row.replyCount.n + 3 * row.retweetCount.n + 2 * row.likeCount.n
                        + row.views.n + (if r.detectedSymptoms != [] then 1000 else 0)
  {
    RelevantIffDetected(p);
  }

  /** The quote and bookmark counters are echoed but never enter the score:
      changing them changes nothing else in the record. */
  lemma QuoteAndBookmarkIgnored(row: Row, p: seq<int>, quote: Value, bookmark: Value)
    ensures var row' := row.(quoteCount := quote, bookmarkCount := bookmark);
      ScoreRow(row', p).Some? == ScoreRow(row, p).Some? &&
      (ScoreRow(row, p).Some? ==>
         ScoreRow(row', p).value ==
         ScoreRow(row, p).value.(quoteCount := quote, bookmarkCount := bookmark))
  {
  }
}
