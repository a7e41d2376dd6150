# Tweet symptom scorer: a verified model of `analyze`

This project models the scoring step of the `POST /analyze` handler in
`app.py`. A client uploads a CSV of social-media posts. The handler checks
that a file was sent and that the table has the twelve required columns. It
turns each row's prediction vector (one 0/1 entry per symptom label) into the
list of detected labels. From that list it derives the relevance flag
`is_tb`. It computes an importance score from four engagement counters plus a
boost for relevant rows, and builds one record per row. Finally it sorts the
records by score, highest first. Every other failure becomes the opaque 500.

The model has four modules:

- `Frames` (`frames.dfy`): cells after null normalisation (`Value`), the
  parsed table (`Frame`: a header plus one column-to-cell map per row), the
  uploaded file, the twelve required columns, the two 400 messages, and
  reading a row by column name.
- `Scoring` (`scoring.dfy`): the five symptom labels, the detected-symptoms
  comprehension, `is_tb`, the score, the geo normalisation and the output
  record of one row.
- `Ranking` (`ranking.dfy`): the descending stable sort. Stability is stated
  as "for every score, the records with that score appear in the same order".
  It is proved of a functional reference sort (`Ranked`) and of the in-place
  sort the handler runs on an array (`RankInPlace`). A uniqueness lemma shows
  that any two stable descending orders of the same records are equal, so the
  result does not depend on which stable algorithm Python uses.
- `Analyze` (`analyze.dfy`): the response type, the handler as a function
  (`Handle`), the per-row loop as a method, the handler as a method proved
  equal to `Handle`, and the lemmas about the whole request. The module
  `Examples` in the same file works through a two-row upload.

Choices of representation:

- The score is modelled scaled by ten, as the exact integer
  `4*reply + 3*retweet + 2*like + views + 1000*is_tb`. Ordering and equality
  are therefore exact.
- The vectorizer and classifier are opaque. What they return for the frame's
  text column is an input, `predictions: Option<seq<seq<int>>>`. `None` means
  they raised. Row `i` uses vector `i`, and a missing vector fails like the
  index error it would be.
- A file field counts as absent when it is missing or its file name is empty.
  This is how the web framework's file object decides truthiness for
  `if not file`.
- A cell a row's map lacks reads as null, as the parser's NaN would after
  line 50.

Two facts about the code shape the model:

- The handler does not check a prediction vector's width. Only an entry
  equal to 1 at a position past the five labels raises (the label lookup at
  app.py:76). Wider vectors with zeros there, and narrower vectors, are
  accepted.
- Only the four scored counters must be numbers: they are the only cells the
  arithmetic at app.py:82-88 touches. The quote and bookmark counters and the
  text fields are echoed whatever they hold, null included.

## Model

| member | source | states |
|---|---|---|
| `Frames.Truthy` | app.py:96 | Python truthiness of a cell, used by the geo rule; `Scoring.NormalizeGeo` states what it decides (null, "" and 0 are falsy) |
| `Frames.FilePresent` | app.py:36-37 | the `if not file` test; `Analyze.NoFileRejected` and `Analyze.SuccessIffEveryRowScores` state its effect on the response |
| `Frames.HasRequiredColumns` | app.py:44-46 | the `all(column in df.columns ...)` test; `Analyze.MissingColumnRejected` and `Analyze.SuccessIffEveryRowScores` state its effect on the response |
| `Frames.Cell` | app.py:53-64 | one cell of a record by column name, null when absent; `Frames.RowsReadOnlyRequiredColumns` states that only the required columns are read |
| `Frames.RowOf` | app.py:53-64 | the twelve cells of row i taken from the twelve column lists; `Frames.RowsReadOnlyRequiredColumns` states that nothing else is read |
| `Frames.Rows` | app.py:53-64 | the column lists, zipped, give exactly one row per record of the frame |
| `Frames.RowsReadOnlyRequiredColumns` | app.py:53-64 | frames that agree on the twelve required columns yield the same rows; any other column is ignored |
| `Scoring.LabelsDistinct` | app.py:30 | the five symptom labels are pairwise distinct |
| `Scoring.DetectedFrom` | app.py:76 | the comprehension from position j succeeds iff no position from j on holds a 1 past the five labels |
| `Scoring.DetectedFromLabels` | app.py:76 | from position j, it collects each label whose entry is 1 exactly once, in label order, and at most 5 - j of them |
| `Scoring.Detected` | app.py:75-76 | detecting fails (index error) iff some entry equal to 1 lies at a position of 5 or more |
| `Scoring.DetectedLabels` | app.py:30-76 | label k is detected iff entry k exists and equals 1; the labels appear in increasing position, so the list is a subsequence of the five labels, at most 5 long |
| `Scoring.AnyTruthy` | app.py:79 | Python's `any` over a list of strings; `Scoring.RelevantIffDetected` states its value on detected labels |
| `Scoring.IsTb` | app.py:79 | the relevance flag `int(any(detected_symptoms))`; `Scoring.RelevantIffDetected` states that it holds iff a label was detected |
| `Scoring.RelevantIffDetected` | app.py:79 | `any` over the detected labels is true iff that list is non-empty, because no label is the empty string |
| `Scoring.Score10` | app.py:82-88 | the score succeeds iff reply, retweet, like and views are all numbers; otherwise the arithmetic raises |
| `Scoring.Boost` | app.py:87 | the 0 or 1 that `is_tb` is multiplied as; `Scoring.RelevanceBoost` states that it adds exactly 100 |
| `Scoring.RelevanceBoost` | app.py:87 | a relevant row scores exactly 100 more (1000 on the scale of ten) than the same counters when not relevant |
| `Scoring.ScoreMonotone` | app.py:82-86 | raising any of the four weighted counters never lowers the score |
| `Scoring.NormalizeGeo` | app.py:96 | geo is null iff the input geo is falsy (null, empty string or zero); otherwise it is passed through unchanged |
| `Scoring.ScoreRow` | app.py:74-107 | a row's record is built iff its labels can be detected and its four weighted counters are numbers |
| `Scoring.ScoredRecord` | app.py:91-107 | a record echoes text, URL, author, handle, createdAt and all six counters; geo is normalised; its symptoms are the detected labels; `is_tb` holds iff that list is non-empty; the score is 4*reply + 3*retweet + 2*like + views + 1000 when relevant |
| `Scoring.QuoteAndBookmarkIgnored` | app.py:82-106 | changing quoteCount or bookmarkCount changes neither success nor score nor any other field; only the echoed values change |
| `Ranking.WithScoreMembers` | app.py:110 | a record is in the score-k subsequence iff it is in the list and scores k |
| `Ranking.StableReorderIsPermutation` | app.py:110 | a reordering that keeps every score's subsequence is a permutation (equal multisets) |
| `Ranking.SwapNeighbours` | app.py:110 | exchanging two neighbours of different score keeps every score's subsequence |
| `Ranking.StableSortUnique` | app.py:110 | two lists sorted by descending score whose score-k subsequences agree for every k are equal |
| `Ranking.Insert` | app.py:110 | inserting a record adds exactly that record to the multiset |
| `Ranking.InsertSorted` | app.py:110 | inserting into a list sorted by descending score keeps it sorted |
| `Ranking.InsertWithScore` | app.py:110 | inserting into a sorted list puts the new record after every record of equal score |
| `Ranking.Ranked` | app.py:110 | the reference sort; `Ranking.RankedIsStableSort` and `Ranking.StableSortIsRanked` state that it is the one descending stable order of its input |
| `Ranking.RankedIsStableSort` | app.py:110 | the reference sort orders by descending score and keeps equal-score records in input order |
| `Ranking.StableSortIsRanked` | app.py:110 | any descending, stable reordering of a list equals the reference sort of it |
| `Ranking.SortedReorderIsInsert` | app.py:110 | a descending stable reordering of a sorted list with one record appended is the insertion of that record |
| `Ranking.InsertStep` | app.py:110 | one insertion pass extends the sorted prefix by one element, keeps every score's subsequence, and leaves everything after index i unchanged |
| `Ranking.PassExtendsRanked` | app.py:110 | after pass i the prefix of length i + 1 is the reference sort of the first i + 1 records, and the rest is untouched |
| `Ranking.RankInPlace` | app.py:110 | the in-place sort leaves the array sorted by descending score, stable, and equal to the reference sort of its old contents; each pass keeps the prefix equal to the reference sort of the records seen so far |
| `Analyze.Handle` | app.py:33-123 | the whole response of the handler; `Analyze.SuccessIffEveryRowScores`, `Analyze.SuccessfulResponse`, `Analyze.NoFileRejected`, `Analyze.MissingColumnRejected` and `Analyze.BadRowFailsRequest` state what it promises |
| `Analyze.Assemble` | app.py:73-107 | one record per row, in row order |
| `Analyze.AssembleResults` | app.py:73-107 | the loop succeeds iff every row has a prediction vector and builds its record; on success record i is row i's record; on failure nothing is kept |
| `Analyze.Analyze` | app.py:33-123 | the handler's response is exactly `Handle` of the file field and the classifier output |
| `Analyze.NoFileRejected` | app.py:36-38 | a missing or unnamed file gives the 400 "No file provided", whatever follows |
| `Analyze.MissingColumnRejected` | app.py:44-47 | a parsed table lacking any one required column gives the 400 message listing all twelve columns |
| `Analyze.SuccessIffEveryRowScores` | app.py:34-123 | the response is a success iff the file is present and parses, the twelve columns are there, the classifier ran and every row scores |
| `Analyze.BadRowFailsRequest` | app.py:74-123 | one row with a non-numeric or null weighted counter, a missing prediction vector or a 1 past the labels makes the whole response the internal error, with no records |
| `Analyze.SuccessfulResponse` | app.py:73-110 | on success: one record per row, scores non-increasing, equal scores in row order, a permutation of the assembled records, and every row's record present |
| `Analyze.OnlyRequiredColumnsMatter` | app.py:44-64 | extra columns and column order do not change the response |
| `Examples.QuietRowScore` | app.py:76-96 | a row with zero engagement and no symptom scores 0, is not relevant, and its null geo stays null |
| `Examples.RelevantRowScore` | app.py:76-88 | replies 10, retweets 5, likes 20, views 100 and one symptom score 119.5 (1195) and detect exactly "respiratory" |
| `Examples.HandleTwoRows` | app.py:73-110 | a two-row upload whose second row outscores the first comes back with the two records swapped |
| `Examples.TwoRowExample` | app.py:33-118 | the quiet row followed by the relevant row comes back as [relevant, quiet] |

## Left out

- HTTP plumbing is not modelled: Flask routing, multipart access, `jsonify`, the response headers, CORS, and port and host setup (app.py:1-21, app.py:32, app.py:116-118, app.py:125-128).
- Logging is not modelled. The debug log of the payload and the error log of the exception are side effects only (app.py:13-21, app.py:113, app.py:122).
- Loading the pickled model and calling the vectorizer and classifier are foreign code (app.py:24-27, app.py:67-70). Their output is the `predictions` input, so the model does not say which rows get which vector, nor when they raise (a null text, say). In particular, a table with the twelve columns but no data rows most likely makes the program answer 500, since the vectorizer and classifier refuse an empty batch; the model answers `Ok([])` for it when `predictions` is `Some([])`, and gives the 500 only when `predictions` is `None`.
- CSV parsing and `df.where(...)` are library code (app.py:41, app.py:50). Their output is the `Content` input: unparsable, or a frame whose missing cells are already null. Pandas' renaming of duplicate column names is not modelled.
- Floating point is not modelled. The score is the exact integer ten times the intended value, so IEEE rounding of `0.4 * reply` and the other terms is not captured. Neither is the "integer too large to convert to float" error for huge counters. Cells are null, strings or integers; float cells (such as a counter column containing a blank) are not represented.
- `Analyze.SuccessfulResponse`: "equal scores in row order" is about the exact scores, not the program's float scores. Rounding can split scores the model counts as equal. A row with like=1 and views=1 gets 0.2 + 0.1 = 0.30000000000000004 in the program, while a row with retweet=1 gets 0.3. The program therefore puts the first row ahead of the second whatever their row order. The model scores both 3 (0.3 times ten) and keeps row order.
- `Ranking.RankInPlace`: Python sorts with its own stable algorithm; the model sorts by insertion. `Ranking.StableSortUnique` shows that every stable descending sort gives the same list, so only the algorithm differs, not the result.
- JSON serialisation failures are not modelled: every record the model builds is assumed to serialise.
