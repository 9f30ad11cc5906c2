# P2P botnet flow detector — a Dafny model of the detection pipeline

The system classifies network flow records as botnet (malicious) or benign
with a pre-trained classifier and reports what it found. Around an opaque
classifier sits one small pipeline, repeated with variations in four entry
points:

1. **Schema split** (`predict_flows`): a table of at least 7 columns is cut
   positionally. Columns 0–4 are the flow identifiers (src, sport, dst,
   dport, proto), columns 5..N-2 are features, and the last column, the
   label, is dropped.
2. **Sanitizer** (`clean_dataset`): NaN, +Inf and -Inf become 0, then every
   cell is cast to float. A text cell makes the cast fail.
3. **Classifier**: one integer label per row. Label 1 means malicious and
   any other label means benign.
4. **Aggregation**: the malicious identifier rows in input order, the total,
   the malicious count, the ratio (0 when there are no rows), a bounded
   sample (`head(n)`), and top-10 frequency tables over `src_ip` and
   `dst_ip`.
5. **Presentation**: two text reports (a sentinel line, or a header plus one
   line per malicious flow) and the dashboard's threat level.

The model is functional. A parsed CSV is a `Table` of `Cell`s
(`Num(real) | NaN | PosInf | NegInf | Text(string)`) with one cell per
column in each row. The classifier is a function from the sanitized
feature block to `Option<seq<int>>`, where `None` stands for `model.predict`
raising. Every failure raised by the modelled steps (width check, cast,
classifier, mask, column lookup, upload checks, report rows) is a
`Failure` value in a `Result`. The file and model-loading failures are
left out with the file I/O. The ratio is an exact `real`.

Modules, following the source files:

| module | file | models |
|---|---|---|
| `Outcomes` | outcomes.dfy | `Option`, `Result`, and the failures the entry points raise |
| `Frame` | frame.dfy | cells, tables, Python slice bounds, column lookup, `str.endswith` |
| `Render` | render.dfy | `str()` of a count, written out with a parse round-trip; abstract cell and ratio rendering |
| `Sanitizer` | sanitizer.dfy | `clean_dataset`, the same in detector_core.py and api.py |
| `Schema` | schema.dfy | flow identifiers, the 7-column check and positional split |
| `Aggregate` | aggregate.dfy | the `preds == 1` mask, count, ratio, `head(n)` |
| `TopTalkers` | toptalkers.dfy | `value_counts().head(10)` |
| `Detector` | detector.dfy | detector_core.py: `predict_flows`, and `detect_from_csv` without its file I/O |
| `FastApi` | fastapi.dfy | app_fastapi.py: `predict_csv` |
| `Api` | api.dfy | api.py: `run_detection`, `detect_botnet` |
| `Dashboard` | dashboard.dfy | app_streamlit.py: metrics, threat level, display limit, top tables |
| `Scenarios` | scenarios.dfy | properties proved on small concrete tables |

Behaviours of the code that the model keeps as they are:

- **Empty tables.** `detect_from_csv` does not check for a zero-row table.
  It hands an empty feature block to the classifier. A classifier that
  answers such a block gives a report of 0 flows, ratio 0 and the sentinel
  (`Scenarios.EmptyTable`). scikit-learn's `predict` raises on a block
  without samples, so with such a classifier the call fails
  (`Scenarios.EmptyTableClassifierRaises`). Only `predict_csv` and the
  dashboard check for an empty table, and they do it before prediction.
- **Missing model.** `load_model` raises `FileNotFoundError` when the
  model file is missing (detector_core.py:19-20). `detect_from_csv` calls
  it on every run, and app_fastapi.py calls it at import. api.py instead
  catches any loading error and keeps `model = None`. A detection that
  reaches `model.predict` then raises `AttributeError` (api.py:52). None
  of these failures is modelled; they belong to the model-loading I/O.
- **Non-binary labels.** Nothing rejects them. Every label other than 1
  counts as benign.
- **Width check in api.py.** Unlike `predict_flows`, api.py's
  `run_detection` has no 7-column check. Its Python slices `[0:5]` and
  `[5:-1]` then select the first min(5, N) columns and an empty feature
  block (`Frame.SliceBoundsOfNarrowRow`).
- **Cast errors.** pandas' message for a failed cast names the offending
  value. The model names the row and column of a text cell instead.

## Model

| member | source | states |
|---|---|---|
| Sanitizer.SanitizeRow | detector_core.py:10-13 | one row keeps its length, numbers keep their value, NaN/±Inf become 0, and it fails exactly when a cell is text, naming that column |
| Sanitizer.Sanitize | detector_core.py:10-13 | the block keeps its shape, every number keeps its value, every NaN/+Inf/-Inf becomes 0, and it fails exactly when some cell is text; the error names a text cell |
| Sanitizer.Embed | detector_core.py:13 | the float frame produced by the cast, as cells: same shape, every cell `Num` of its value |
| Sanitizer.SanitizeEmbed | detector_core.py:12-13 | an all-float block is returned unchanged, so the output holds no NaN or infinity |
| Sanitizer.SanitizeIdempotent | detector_core.py:10-13 | cleaning an already cleaned block changes nothing |
| Schema.ToFlowId | detector_core.py:37 | the five identifier cells are kept as they are, in order |
| Schema.SplitColumns | detector_core.py:34-38 | fails exactly when the table has fewer than 7 columns; otherwise both parts keep the row count, each row is exactly identifiers ++ features ++ [label], and there is at least one feature column |
| Frame.SliceBoundsOfWideRow | api.py:46-47 | with 7 or more columns, `[0:5]` and `[5:-1]` are exactly columns 0..4 and 5..N-2; the last column is in neither and the feature range is not empty |
| Frame.SliceBoundsOfNarrowRow | api.py:46-47 | with fewer than 7 columns, the identifier slice is the first min(5, N) columns and the feature slice is empty |
| Frame.SliceBounds | api.py:46-47 | a Python slice of a sequence of length n is a range inside [0, n] |
| Frame.SelectColumns | api.py:49-50 | each selected row is exactly the cells of the chosen column range |
| Frame.ColumnIndex | app_streamlit.py:381 | absent exactly when the name is not a column; otherwise the first column with that name |
| Frame.ColumnCells | app_streamlit.py:384 | the column's cells, one per row, top to bottom |
| Frame.EndsWithIffConcat | api.py:70 | a name ends with ".csv" exactly when it is some string followed by ".csv" |
| Aggregate.MaliciousCount | detector_core.py:79 | the number of predictions equal to 1 is at most the number of predictions |
| Aggregate.MaliciousIndices | detector_core.py:73-74 | as many positions as 1-labels, each inside the input and labelled 1 |
| Aggregate.MaliciousIndicesExact | detector_core.py:73-74 | the positions are strictly increasing and include every 1-labelled position, so the mask keeps exactly those rows in input order |
| Aggregate.Gather | detector_core.py:74 | the rows at the given positions, in the positions' order |
| Aggregate.SelectMalicious | detector_core.py:73-74 | `flows[preds == 1]` is the rows at the malicious positions, so its length is the malicious count and at most the row count |
| Aggregate.MaskRows | app_fastapi.py:56-57 | a mask whose length differs from the row count fails; otherwise it is the malicious selection |
| Aggregate.NoMaliciousIffZero | detector_core.py:82 | the malicious count is 0 exactly when no label is 1 |
| Aggregate.Ratio | detector_core.py:80 | ratio × total = mal_count when total > 0, 0 when total is 0, within [0, 1] when mal_count ≤ total, and 0 exactly when nothing is malicious or there are no rows |
| Aggregate.Head | app_fastapi.py:63 | `head(n)` is a prefix of length min(n, len) for n ≥ 0 and max(0, len + n) for negative n |
| TopTalkers.OccurrencesPositive | app_fastapi.py:67 | a value has a positive count exactly when it occurs in the column |
| TopTalkers.DistinctValues | app_fastapi.py:67 | each non-NaN value of the column exactly once, in order of first appearance in the column |
| TopTalkers.MostFrequent | app_fastapi.py:67 | the chosen key occurs at least as often as every other key, and is the earliest such key |
| TopTalkers.FirstIndex | app_fastapi.py:67 | the position of the first occurrence of a value: it holds the value and no earlier cell does |
| TopTalkers.SortByCount | app_fastapi.py:67 | one entry per key, each key paired with its exact count, counts non-increasing, and for keys without repeats, entries with equal counts in key order |
| TopTalkers.ConsSorted | app_fastapi.py:67 | one selection step, the most frequent key (the earliest among ties) in front of the sorted rest, keeps counts non-increasing and tied keys in key order |
| TopTalkers.SortByCountDistinct | app_fastapi.py:67 | distinct keys come out distinct: no key is listed twice |
| TopTalkers.SortByCountComplete | app_fastapi.py:67 | every key is listed |
| TopTalkers.ValueCounts | app_fastapi.py:67 | every distinct non-NaN value exactly once with its number of occurrences, counts non-increasing, values with equal counts in order of first appearance in the column |
| TopTalkers.TopTable | app_fastapi.py:66-73 | `value_counts().head(10)` is the first min(10, n) entries of `value_counts()` |
| TopTalkers.TopTablePrefix | app_fastapi.py:66-73 | the table and its keys are prefixes of the full counts and their keys |
| TopTalkers.TopTableShape | app_fastapi.py:66-73 | at most 10 entries with distinct keys, each a non-NaN value of the column with its exact count, counts non-increasing, tied values in order of first appearance |
| TopTalkers.TopTableDominates | app_fastapi.py:66-73 | a value left out of the table occurs no more often than any value in it |
| TopTalkers.TopTableComplete | app_fastapi.py:66-73 | a table with fewer than 10 entries lists every non-NaN value |
| TopTalkers.TopTableEmptyIff | app_fastapi.py:66-73 | the table is empty exactly when the column holds only NaN, in particular when there are no malicious flows |
| Detector.PredictFlows | detector_core.py:26-41 | a table narrower than 7 columns fails before the classifier is called; otherwise it succeeds exactly when the feature columns cast to float and the classifier answers; a cast failure names a text cell among the feature columns 5..N-2, and a classifier that raises fails the call; on success the flows are each row's first five cells and the labels are the classifier's answer on the sanitized features |
| Detector.FlowLines | detector_core.py:90-92 | one line per malicious flow, in order |
| Detector.Report | detector_core.py:82-92 | the sentinel alone exactly when nothing is malicious; otherwise the banner, a blank line, the total, the count and the ratio lines, a blank line, then one `src:sport -> dst:dport (proto)` line per malicious flow, in order |
| Detector.Summarize | detector_core.py:98-107 | the counts, a ratio that is mal_count/total (0 for no rows) in [0, 1], the first min(50, mal_count) malicious flows, and a CSV export exactly when requested and not empty |
| Detector.DetectFromCsv | detector_core.py:71-80 | a narrow table fails first; it succeeds exactly when prediction succeeds and gives one label per row; otherwise the mask length fails |
| Detector.DetectFromCsvFacts | detector_core.py:73-107 | total = rows, malicious = number of 1-labels, ratio = that count over the rows; the report is the text report of the rows labelled 1, so the sentinel alone when the count is 0, otherwise 6 + count lines (banner, blank, total, count, ratio, blank) whose ratio line shows the summary's ratio and whose k-th flow line shows the identifiers of the k-th row labelled 1; the sample holds min(50, count) flows, the k-th being the identifiers of the k-th row labelled 1; a CSV is written exactly when asked for and the count is positive |
| Detector.PrefixIsFlaggedSample | detector_core.py:73-107 | any prefix of the malicious flows is a flagged sample: its k-th flow is the identifier cells of the k-th row labelled 1 |
| FastApi.IdColumn | app_fastapi.py:67 | one identifier cell per malicious flow, in order |
| FastApi.TopByName | app_fastapi.py:66-73 | empty with no malicious flows; otherwise it fails exactly when the name is not an identifier column, and is the column's top table, with at most 10 distinct keys and non-increasing counts |
| FastApi.Respond | app_fastapi.py:59-83 | total = rows, ratio = mal_count/total, returned_flows = the sample's length, the sample is `head(limit)` of the malicious flows, and the two top tables are those of the src_ip and dst_ip columns of the malicious flows (bounded, distinct, non-increasing, empty without malicious flows); it fails exactly when something is flagged and src_ip or dst_ip is not an identifier column, naming src_ip first |
| FastApi.FlaggedResponse | app_fastapi.py:56-83 | the response to the rows flagged by the labels fails exactly when something is flagged and src_ip or dst_ip is not an identifier column; on success its counts and ratio are those of the labels and its sample is a prefix of the flagged rows' identifiers |
| FastApi.PredictCsv | app_fastapi.py:43-57 | 400 for a non-.csv name, then for a parse failure, then for an empty table, in that order; any other upload gets the answer for its table |
| FastApi.Answer | app_fastapi.py:55-83 | the failures of predict_flows pass through (a narrow table fails its width check); labels of the wrong length fail the mask; otherwise the answer is the response built from the rows labelled 1; it succeeds exactly when prediction succeeds with one label per row and, if something is flagged, src_ip and dst_ip are identifier columns; a success has mal_count = number of 1-labels, ratio = mal_count/total, and the k-th sampled flow is the identifiers of the k-th row labelled 1 |
| Api.FeatureBlock | api.py:46-49 | `df[df.columns[5:-1]]`: one row per table row, each exactly the cells of columns 5..N-2 (none when N < 7) |
| Api.DetectionInputs | api.py:43-52 | it succeeds exactly when the columns `[5:-1]` cast to float (the same clean_dataset as the core) and the classifier answers; the flows are each row's first min(5, N) cells and the predictions are the classifier's answer on the sanitized block; a cast failure names a text cell inside `[5:-1]`, and a classifier that raises fails the call |
| Api.MaliciousIndicesSnoc | api.py:55-57 | one more prediction adds its index exactly when it is 1 |
| Api.CollectMalicious | api.py:54-59 | succeeds exactly when every 1-label has a row; then returns the rows at exactly the 1-labelled indices, in increasing index order, one per 1-label |
| Api.RunDetection | api.py:41-59 | an unreadable upload and the errors of the inputs step pass through; otherwise it succeeds exactly when every 1-label has a row, and the k-th returned row is the first min(5, N) cells of the k-th row labelled 1 |
| Api.Report | api.py:85-91 | "No Botnets Detected" alone exactly when there are no flows; otherwise the banner and one `f0:f1 -> f2:f3 ; f4` line per flow in order; a row of fewer than five cells fails |
| Api.DetectBotnet | api.py:65-91 | a name not ending in ".csv" gives 400 whatever the content; an unreadable upload and the failures of run_detection pass through; it succeeds exactly when every 1-label has a row and, if something is flagged, the table has five columns; a success is the sentinel exactly when no label is 1, and otherwise the banner and one line per 1-label, the k-th showing the identifiers of the k-th flagged row |
| Dashboard.Level | app_streamlit.py:306 | HIGH exactly when ratio > 0.1, MEDIUM exactly when 0.05 < ratio ≤ 0.1, LOW otherwise |
| Dashboard.LevelMonotone | app_streamlit.py:306 | a larger ratio never gives a lower level |
| Dashboard.ComputeMetrics | app_streamlit.py:264-267 | benign is non-negative and benign + malicious = total; ratio = mal_count/total in [0, 1]; the level is the level of that ratio |
| Dashboard.TopIfPresent | app_streamlit.py:381-397 | a table exactly when the column exists, and then the top table of that column's cells among the malicious rows: each count is the number of malicious rows holding the value, at most 10 distinct keys, non-increasing counts |
| Dashboard.Show | app_streamlit.py:234-312 | a failed read and an empty upload stop early; the mask fails exactly when its length is wrong; a readable non-empty upload with aligned labels reaches the results with the metrics of its row count and number of 1-labels; details are shown exactly when something is malicious |
| Dashboard.ShowDetails | app_streamlit.py:310-397 | the warning shows exactly when the level is HIGH; the table shows the first min(limit, mal_count) malicious flows in order; each top table exists exactly when its column does, has at most 10 entries, and is the top table of that column over the rows labelled 1 |
| Dashboard.HighNeedsMalicious | app_streamlit.py:310-321 | a HIGH level, and with it the warning, needs at least one malicious flow |
| Render.DigitChar | detector_core.py:86-87 | the character is the decimal digit of the value |
| Render.NatToString | detector_core.py:86-87 | a count prints as a non-empty string of digits with no leading zero, except for 0 itself |
| Render.ParseNatToString | detector_core.py:86-87 | reading the printed digits back gives the count |
| Render.NatToStringInjective | detector_core.py:86-87 | different counts print differently |
| Scenarios.LabelsZeroOneZero | detector_core.py:73-107 | labels [0, 1, 0] give 3 flows, 1 malicious, ratio 1/3, and a sample holding exactly row 1's identifiers |
| Scenarios.ThreeRowsOneMalicious | detector_core.py:26-107 | a three-row table with one flagged row is accepted without error, with one malicious flow, ratio 1/3, and that row's identifiers sampled |
| Scenarios.FirstFeatureLabels | detector_core.py:10-41 | on a table with one feature column, a classifier keyed on 0 flags the rows whose feature is 0 or missing |
| Scenarios.InfinityReachesClassifierAsZero | detector_core.py:12 | an infinite feature reaches the classifier as 0 |
| Scenarios.SixColumnsRejected | detector_core.py:34-35 | a six-column table fails the width check whatever the classifier |
| Scenarios.EmptyTable | app_fastapi.py:52-53 | an empty upload is a 400 at predict_csv, while detect_from_csv with a classifier that answers an empty block reports 0 flows, ratio 0 and the sentinel |
| Scenarios.EmptyTableClassifierRaises | detector_core.py:34-40 | with a classifier that raises on an empty block, detect_from_csv fails on a table without rows, since nothing checks for one |

## Left out

- Model loading (pickle, and `load_model`'s `FileNotFoundError` for a missing model file), the missing-CSV `FileNotFoundError`, file paths, temporary files, writing the txt and CSV outputs, `FileResponse`, and the whole of detect.py and convert_model.py. These are file and process I/O. The model takes the parsed table and the classifier as parameters and returns the report lines and a flag saying whether the CSV would be written.
- CSV parsing and UTF-8 decoding. An upload arrives as `Option<Table>`, where `None` is a parse failure. In api.py nothing catches that failure: `run_detection` returns `UnreadableCsv`. The exception text in "Failed to parse CSV: {e}" is reduced to its fixed prefix.
- pandas' renaming of duplicate column headers on read. Column lookup by name returns the first matching column.
- `model = None` in api.py (api.py:20). The `AttributeError` of `None.predict` (api.py:52) is not modelled as its own failure. Every classifier passed in is a function.
- The classifier's internals. It is a plain function. Whatever makes it raise (sklearn's input checks, an empty block) becomes `None`.
- The randomised mock `predict_flows` in app_streamlit.py, plus the CSS, charts, raw-data preview, download button, CORS, routing and health endpoints. These are presentation or framework code.
- Float formatting (`:.4f`, `:.2f%`, `{:,}`) and the printing of cell values. Both are supplied through `Render.Renderer`. The model concretely prints only non-negative integers (`Render.NatToString`).
- Sanitizer.Sanitize: `astype(float)` would also accept text that looks like a number (such as "1e3"). The model treats every `Text` cell as a failure, on the view that `read_csv` has already turned numeric text into numbers.
- Dashboard.Level: compares an exact rational ratio with 0.1 and 0.05, not Python doubles. The two can disagree only on ratios within one rounding step of a threshold.
- TopTalkers.ValueCounts: pandas does not specify the order of equal counts. The model fixes one order, first appearance in the column, and states it (`TopTalkers.TiesInOrderOf`). A pandas build that orders ties differently gives the same counts in a different order.
- Detector.Report: the ratio and cell text are stated only through the supplied renderer.
- Detector.DetectFromCsv: the summary's output paths (`txt_output_path`, `malicious_csv_path`) are not modelled. Only whether a malicious-flow CSV is written is kept.
- Dashboard.Show: the dashboard calls a random mock `predict_flows`, so the flows and labels are parameters rather than computed from the upload.
- Reloading the model, concurrent requests and rejecting non-binary labels. The code has none of these.
