/** api.py: run_detection (no width check: the columns are chosen by Python
    slices, so a narrow table reaches the classifier), its text report and
    the /detect endpoint's suffix check. */
module Api {
  import opened Outcomes
  import opened Frame
  import opened Render
  import opened Sanitizer
  import opened Aggregate
  import opened Schema

  const NoBotnetsLine := "No Botnets Detected"
  const BannerLine := "----- Malicious Botnet Flows -----"

  /** The identifier rows (`df[df.columns[0:5]]`, as lists) and the
      predictions of the classifier on the sanitized `df[df.columns[5:-1]]`. */
  datatype Inputs = Inputs(flows: seq<Row>, preds: seq<int>)

  /** `df[df.columns[5:-1]]`: columns 5..N-2 of every row, none when N < 7. */
  function FeatureBlock(t: Table): (b: seq<Row>)
    requires t.WellFormed()
    ensures |b| == |t.rows|
    ensures forall i :: 0 <= i < |t.rows| ==>
              b[i] == t.rows[i][SliceBounds(t.Width(), 5, -1).0..SliceBounds(t.Width(), 5, -1).1]
  {
    var fb := SliceBounds(t.Width(), 5, -1);
    SelectColumns(t.rows, fb.0, fb.1)
  }

  /** Everything run_detection does before its loop. The identifier rows
      are each row's first min(5, N) cells and the classifier sees the
      sanitized feature block. It succeeds exactly when no feature cell is
      text and the classifier answers; a text feature cell fails the float
      cast and is named by its table position; a classifier that rejects
      the block fails the call. */
  function DetectionInputs(t: Table, model: Classifier): (r: Result<Inputs, Failure>)
    requires t.WellFormed()
    ensures r.Ok? <==> Sanitize(FeatureBlock(t)).Ok? && model(Sanitize(FeatureBlock(t)).value).Some?
    ensures r.Ok? ==> |r.value.flows| == |t.rows|
    ensures r.Ok? ==> forall i :: 0 <= i < |t.rows| ==> r.value.flows[i] == t.rows[i][..Min(IdColumns, t.Width())]
    ensures r.Ok? ==> model(Sanitize(FeatureBlock(t)).value) == Some(r.value.preds)
    ensures Sanitize(FeatureBlock(t)).Err? ==> r.Err? && r.error.NonNumericCell?
    ensures Sanitize(FeatureBlock(t)).Ok? && model(Sanitize(FeatureBlock(t)).value).None? ==>
              r == Err(ClassifierRaised)
    ensures r.Err? && r.error.NonNumericCell? ==>
              && r.error.row < |t.rows|
              && SliceBounds(t.Width(), 5, -1).0 <= r.error.column < SliceBounds(t.Width(), 5, -1).1
              && t.rows[r.error.row][r.error.column].Text?
  {
    var w := t.Width();
    var ib := SliceBounds(w, 0, 5);
    var fb := SliceBounds(w, 5, -1);
    var flows := SelectColumns(t.rows, ib.0, ib.1);
    var block := FeatureBlock(t);
    match Sanitize(block)
    case Err(p) =>
      assert block[p.0][p.1] == t.rows[p.0][fb.0 + p.1];
      Err(NonNumericCell(p.0, fb.0 + p.1))
    case Ok(features) =>
      match model(features)
      case None => Err(ClassifierRaised)
      case Some(preds) => Ok(Inputs(flows, preds))
  }

  /** Extending the labels by one adds that index when it is a 1-label. */
  lemma MaliciousIndicesSnoc(preds: seq<int>, idx: nat)
    requires idx < |preds|
    ensures MaliciousIndices(preds[..idx + 1]) ==
              MaliciousIndices(preds[..idx]) + (if preds[idx] == MaliciousLabel then [idx] else [])
  {
    assert preds[..idx + 1][..idx] == preds[..idx];
  }

  /** run_detection's loop: for each prediction equal to 1, the identifier
      row at that index (`flows.iloc[idx]`, which raises past the last row).
      It succeeds exactly when every 1-label falls on an existing row, and
      then returns the rows at exactly the 1-labelled indices, in increasing
      index order, one per 1-label. */
  method CollectMalicious(flows: seq<Row>, preds: seq<int>) returns (r: Result<seq<Row>, Failure>)
    ensures r.Ok? <==> forall i :: 0 <= i < |preds| && preds[i] == MaliciousLabel ==> i < |flows|
    ensures r.Err? ==> r.error == PositionOutOfRange
    ensures r.Ok? ==> |r.value| == MaliciousCount(preds)
    ensures r.Ok? ==> forall k :: 0 <= k < |r.value| ==>
              k < |MaliciousIndices(preds)| && MaliciousIndices(preds)[k] < |flows| &&
              r.value[k] == flows[MaliciousIndices(preds)[k]]
  {
    var malicious: seq<Row> := [];
    ghost var positions: seq<nat> := [];
    var idx := 0;
    while idx < |preds|
      invariant 0 <= idx <= |preds|
      invariant forall i :: 0 <= i < idx && preds[i] == MaliciousLabel ==> i < |flows|
      invariant positions == MaliciousIndices(preds[..idx])
      invariant |malicious| == |positions|
      invariant forall k :: 0 <= k < |malicious| ==> positions[k] < |flows| && malicious[k] == flows[positions[k]]
    {
      MaliciousIndicesSnoc(preds, idx);
      if preds[idx] == MaliciousLabel {
        if idx >= |flows| {
          return Err(PositionOutOfRange);
        }
        malicious := malicious + [flows[idx]];
        positions := positions + [idx];
      }
      idx := idx + 1;
    }
    assert preds[..idx] == preds;
    return Ok(malicious);
  }

  /** run_detection on the parse result of the saved upload (None when
      read_csv raised): the inputs, then the loop over the predictions. On
      success the i-th returned row is the identifier cells of the i-th row
      predicted malicious. */
  method RunDetection(upload: Option<Table>, model: Classifier) returns (r: Result<seq<Row>, Failure>)
    requires upload.Some? ==> upload.value.WellFormed()
    ensures upload.None? ==> r == Err(UnreadableCsv)
    ensures upload.Some? && DetectionInputs(upload.value, model).Err? ==>
              r == Err(DetectionInputs(upload.value, model).error)
    ensures upload.Some? && DetectionInputs(upload.value, model).Ok? ==>
              var t := upload.value;
              var preds := DetectionInputs(t, model).value.preds;
              && (r.Ok? <==> forall i :: 0 <= i < |preds| && preds[i] == MaliciousLabel ==> i < |t.rows|)
              && (r.Err? ==> r.error == PositionOutOfRange)
              && (r.Ok? ==> |r.value| == MaliciousCount(preds))
              && (r.Ok? ==> forall k :: 0 <= k < |r.value| ==>
                    MaliciousIndices(preds)[k] < |t.rows| &&
                    r.value[k] == t.rows[MaliciousIndices(preds)[k]][..Min(IdColumns, t.Width())])
  {
    if upload.None? {
      return Err(UnreadableCsv);
    }
    var inputs := DetectionInputs(upload.value, model);
    if inputs.Err? {
      return Err(inputs.error);
    }
    r := CollectMalicious(inputs.value.flows, inputs.value.preds);
  }

  /** `f"{f[0]}:{f[1]} -> {f[2]}:{f[3]} ; {f[4]}"` */
  function FlowLine(f: Row, show: Renderer): string
    requires |f| >= IdColumns
  {
    show.cell(f[0]) + ":" + show.cell(f[1]) + " -> " + show.cell(f[2]) + ":" + show.cell(f[3]) + " ; " + show.cell(f[4])
  }

  /** The text detect_botnet writes: the sentinel alone exactly when there is
      no malicious flow, otherwise the banner and one line per flow in order.
      A flow row with fewer than five cells makes `f[4]` raise. */
  function Report(flows: seq<Row>, show: Renderer): (r: Result<seq<string>, Failure>)
    ensures r.Err? <==> exists k :: 0 <= k < |flows| && |flows[k]| < IdColumns
    ensures r.Err? ==> r.error == PositionOutOfRange
    ensures r.Ok? ==> |r.value| >= 1 && (r.value[0] == NoBotnetsLine <==> |flows| == 0)
    ensures |flows| == 0 ==> r == Ok([NoBotnetsLine])
    ensures r.Ok? && |flows| > 0 ==>
              |r.value| == 1 + |flows| && r.value[0] == BannerLine &&
              forall k :: 0 <= k < |flows| ==> r.value[1 + k] == FlowLine(flows[k], show)
  {
    if |flows| == 0 then Ok([NoBotnetsLine])
    else if exists k :: 0 <= k < |flows| && |flows[k]| < IdColumns then Err(PositionOutOfRange)
    else Ok([BannerLine] + seq(|flows|, k requires 0 <= k < |flows| => FlowLine(flows[k], show)))
  }

  /** POST /detect on an uploaded file name and the parse result of its
      content: a name not ending in ".csv" is answered with status 400
      whatever the content; an unreadable upload and the failures of
      run_detection escape; otherwise the report of the flagged rows, which
      fails exactly when some row is flagged and the table has fewer than
      five columns (`f[4]` raises). */
  method DetectBotnet(filename: string, upload: Option<Table>, model: Classifier, show: Renderer)
    returns (r: Result<seq<string>, Failure>)
    requires upload.Some? ==> upload.value.WellFormed()
    ensures !EndsWith(filename, CsvSuffix) ==> r == Err(HttpError(400, "Upload a valid CSV file"))
    ensures EndsWith(filename, CsvSuffix) && upload.None? ==> r == Err(UnreadableCsv)
    ensures EndsWith(filename, CsvSuffix) && upload.Some? && DetectionInputs(upload.value, model).Err? ==>
              r == Err(DetectionInputs(upload.value, model).error)
    ensures EndsWith(filename, CsvSuffix) && upload.Some? && DetectionInputs(upload.value, model).Ok? ==>
              var t := upload.value;
              var preds := DetectionInputs(t, model).value.preds;
              && (r.Ok? <==> (forall i :: 0 <= i < |preds| && preds[i] == MaliciousLabel ==> i < |t.rows|) &&
                             (MaliciousCount(preds) == 0 || t.Width() >= IdColumns))
              && (r.Err? ==> r.error == PositionOutOfRange)
    ensures r.Ok? ==> EndsWith(filename, CsvSuffix) && upload.Some? && DetectionInputs(upload.value, model).Ok?
    ensures r.Ok? ==>
              var t := upload.value;
              var preds := DetectionInputs(t, model).value.preds;
              && (r.value == [NoBotnetsLine] <==> MaliciousCount(preds) == 0)
              && (MaliciousCount(preds) > 0 ==>
                    && t.Width() >= IdColumns
                    && |r.value| == 1 + MaliciousCount(preds)
                    && r.value[0] == BannerLine
                    && forall k :: 0 <= k < MaliciousCount(preds) ==>
                         MaliciousIndices(preds)[k] < |t.rows| &&
                         r.value[1 + k] == FlowLine(t.rows[MaliciousIndices(preds)[k]][..IdColumns], show))
  {
    if !EndsWith(filename, CsvSuffix) {
      return Err(HttpError(400, "Upload a valid CSV file"));
    }
    var detected := RunDetection(upload, model);
    if detected.Err? {
      return Err(detected.error);
    }
    var t := upload.value;
    var flows := detected.value;
    assert (exists k :: 0 <= k < |flows| && |flows[k]| < IdColumns) <==> |flows| > 0 && t.Width() < IdColumns by {
      if |flows| > 0 && t.Width() < IdColumns {
        assert |flows[0]| < IdColumns;
      }
    }
    r := Report(flows, show);
    if r.Ok? && |flows| > 0 {
      assert r.value[0] == BannerLine;
    }
  }
}
