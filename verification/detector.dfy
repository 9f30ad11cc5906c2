/** detector_core.py without its file I/O: predict_flows and the
    aggregation, report and summary of detect_from_csv. */
module Detector {
  import opened Outcomes
  import opened Frame
  import opened Render
  import opened Sanitizer
  import opened Aggregate
  import opened Schema

  /** Flow identifiers and the classifier's labels for one table. */
  datatype Prediction = Prediction(flows: seq<FlowId>, labels: seq<int>)

  /** `clean_dataset(df.iloc[:, 5:-1])` of a table wide enough to split. */
  function CleanFeatures(t: Table): Result<seq<seq<real>>, (nat, nat)>
    requires t.WellFormed() && t.Width() >= MinColumns
  {
    Sanitize(SplitColumns(t).value.features)
  }

  /** predict_flows: the width check comes first, so a narrow table is
      rejected whatever the classifier; a text feature cell fails the float
      cast (the error names the table position); otherwise the classifier is
      called on the sanitized feature block, never on the raw cells. */
  function PredictFlows(t: Table, model: Classifier): (r: Result<Prediction, Failure>)
    requires t.WellFormed()
    ensures t.Width() < MinColumns ==> r == Err(TooFewColumns)
    ensures t.Width() >= MinColumns ==> (r.Ok? <==> CleanFeatures(t).Ok? && model(CleanFeatures(t).value).Some?)
    ensures t.Width() >= MinColumns && CleanFeatures(t).Err? ==> r.Err? && r.error.NonNumericCell?
    ensures (t.Width() >= MinColumns && CleanFeatures(t).Ok? &&
             model(CleanFeatures(t).value).None?) ==> r == Err(ClassifierRaised)
    ensures r.Err? && r.error.NonNumericCell? ==>
              r.error.row < |t.rows| && IdColumns <= r.error.column < t.Width() - 1 &&
              t.rows[r.error.row][r.error.column].Text?
    ensures r.Ok? ==> |r.value.flows| == |t.rows|
    ensures r.Ok? ==> forall i :: 0 <= i < |t.rows| ==> r.value.flows[i].Cells() == t.rows[i][..IdColumns]
    ensures r.Ok? ==> t.Width() >= MinColumns && CleanFeatures(t).Ok? &&
                      model(CleanFeatures(t).value) == Some(r.value.labels)
  {
    var split :- SplitColumns(t);
    assert forall i :: 0 <= i < |t.rows| ==> split.flows[i].Cells() == t.rows[i][..IdColumns] by {
      forall i | 0 <= i < |t.rows|
        ensures split.flows[i].Cells() == t.rows[i][..IdColumns]
      {
        assert t.rows[i] == split.flows[i].Cells() + split.features[i] + [t.rows[i][t.Width() - 1]];
      }
    }
    match Sanitize(split.features)
    case Err(p) =>
      assert split.features[p.0][p.1] == t.rows[p.0][IdColumns + p.1] by {
        assert t.rows[p.0] == split.flows[p.0].Cells() + split.features[p.0] + [t.rows[p.0][t.Width() - 1]];
      }
      Err(NonNumericCell(p.0, IdColumns + p.1))
    case Ok(features) =>
      match model(features)
      case None => Err(ClassifierRaised)
      case Some(labels) => Ok(Prediction(split.flows, labels))
  }

  const NoActivityLine := "No Botnet Activity Detected"
  const BannerLine := "---------- BOTNET FLOWS DETECTED ----------"

  /** Number of report lines before the first flow line. */
  const HeaderLines := 6

  /** `f"{src}:{sport} -> {dst}:{dport} ({proto})"` */
  function FlowLine(f: FlowId, show: Renderer): string {
    show.cell(f.src) + ":" + show.cell(f.sport) + " -> " + show.cell(f.dst) + ":" + show.cell(f.dport)
    + " (" + show.cell(f.proto) + ")"
  }

  function FlowLines(flows: seq<FlowId>, show: Renderer): (lines: seq<string>)
    ensures |lines| == |flows|
    ensures forall k :: 0 <= k < |flows| ==> lines[k] == FlowLine(flows[k], show)
  {
    seq(|flows|, k requires 0 <= k < |flows| => FlowLine(flows[k], show))
  }

  /** The text report, one string per written line: the sentinel line alone
      exactly when no flow is malicious; otherwise a header block with the
      totals and the ratio, then one line per malicious flow, in order. */
  function Report(total: nat, malicious: seq<FlowId>, show: Renderer): (lines: seq<string>)
    ensures |lines| >= 1
    ensures lines[0] == NoActivityLine <==> |malicious| == 0
    ensures |malicious| == 0 ==> lines == [NoActivityLine]
    ensures |malicious| > 0 ==> |lines| == HeaderLines + |malicious|
    ensures |malicious| > 0 ==>
              lines[0] == BannerLine && lines[1] == "" && lines[5] == "" &&
              lines[2] == "Total flows: " + NatToString(total) &&
              lines[3] == "Malicious flows: " + NatToString(|malicious|) &&
              lines[4] == "Malicious ratio: " + show.ratio(Ratio(|malicious|, total))
    ensures |malicious| > 0 ==> forall k :: 0 <= k < |malicious| ==>
              lines[HeaderLines + k] == FlowLine(malicious[k], show)
  {
    if |malicious| == 0 then [NoActivityLine]
    else
      var malCount := |malicious|;
      [ BannerLine,
        "",
        "Total flows: " + NatToString(total),
        "Malicious flows: " + NatToString(malCount),
        "Malicious ratio: " + show.ratio(Ratio(malCount, total)),
        ""
      ] + FlowLines(malicious, show)
  }

  /** The k-th flow of `sample` is the identifier cells of the k-th row
      labelled malicious, for every k: a prefix of `flows[preds == 1]`. */
  predicate FlaggedSample(sample: seq<FlowId>, rows: seq<Row>, labels: seq<int>) {
    && |sample| <= MaliciousCount(labels)
    && forall k :: 0 <= k < |sample| ==>
         && MaliciousIndices(labels)[k] < |rows|
         && IdColumns <= |rows[MaliciousIndices(labels)[k]]|
         && sample[k].Cells() == rows[MaliciousIndices(labels)[k]][..IdColumns]
  }

  /** Any prefix of the flagged flows is a flagged sample of the rows the
      flows were read from. */
  lemma PrefixIsFlaggedSample(sample: seq<FlowId>, flows: seq<FlowId>, rows: seq<Row>, labels: seq<int>)
    requires |flows| == |labels| == |rows|
    requires forall i :: 0 <= i < |rows| ==> IdColumns <= |rows[i]| && flows[i].Cells() == rows[i][..IdColumns]
    requires sample <= SelectMalicious(flows, labels)
    ensures FlaggedSample(sample, rows, labels)
  {
    var malicious := SelectMalicious(flows, labels);
    forall k | 0 <= k < |sample|
      ensures MaliciousIndices(labels)[k] < |rows|
      ensures sample[k].Cells() == rows[MaliciousIndices(labels)[k]][..IdColumns]
    {
      assert sample[k] == malicious[k];
    }
  }

  /** Size of `sample_malicious_flows` (`head(50)`). */
  const SampleSize := 50

  /** The returned summary dictionary; the output paths are not modelled. */
  datatype Summary = Summary(
    totalFlows: nat,
    maliciousFlows: nat,
    maliciousRatio: real,
    sampleMaliciousFlows: seq<FlowId>,
    writesMaliciousCsv: bool)

  datatype Detection = Detection(report: seq<string>, summary: Summary)

  /** The summary of detect_from_csv for `total` rows of which `malicious`
      were flagged: the counts, a ratio that is mal_count/total (0 for no
      rows) and so lies in [0, 1], the first min(50, mal_count) malicious
      flows, and a CSV export exactly when asked for and not empty. */
  function Summarize(total: nat, malicious: seq<FlowId>, saveMaliciousCsv: bool): (s: Summary)
    requires |malicious| <= total
    ensures s.totalFlows == total && s.maliciousFlows == |malicious|
    ensures 0.0 <= s.maliciousRatio <= 1.0
    ensures total > 0 ==> s.maliciousRatio * (total as real) == |malicious| as real
    ensures total == 0 ==> s.maliciousRatio == 0.0
    ensures s.sampleMaliciousFlows <= malicious
    ensures |s.sampleMaliciousFlows| == Min(SampleSize, |malicious|)
    ensures s.writesMaliciousCsv <==> saveMaliciousCsv && |malicious| > 0
  {
    Summary(total, |malicious|, Ratio(|malicious|, total), Head(malicious, SampleSize),
            saveMaliciousCsv && |malicious| > 0)
  }

  /** detect_from_csv on an already parsed table: the classifier's output
      must align with the rows (the boolean mask), and then the report and
      the summary are built from the same malicious rows. */
  function DetectFromCsv(t: Table, model: Classifier, saveMaliciousCsv: bool, show: Renderer)
    : (r: Result<Detection, Failure>)
    requires t.WellFormed()
    ensures t.Width() < MinColumns ==> r == Err(TooFewColumns)
    ensures r.Ok? <==> PredictFlows(t, model).Ok? && |PredictFlows(t, model).value.labels| == |t.rows|
    ensures r.Err? && PredictFlows(t, model).Ok? ==> r.error == MaskLengthMismatch
  {
    match PredictFlows(t, model)
    case Err(e) => Err(e)
    case Ok(p) =>
      match MaskRows(p.flows, p.labels)
      case Err(e) => Err(e)
      case Ok(malicious) =>
        Ok(Detection(Report(|t.rows|, malicious, show), Summarize(|t.rows|, malicious, saveMaliciousCsv)))
  }

  /** What a successful detect_from_csv promises about its input: the total
      is the row count, the malicious count is the number of predictions
      equal to 1, the summary's ratio is the one the report prints, the
      report is the text report of the flagged rows (the sentinel alone
      when nothing was flagged, otherwise the header block and one line per
      flagged flow), and the i-th sampled flow is the identifier cells of
      the i-th row predicted malicious. */
  lemma DetectFromCsvFacts(t: Table, model: Classifier, saveMaliciousCsv: bool, show: Renderer)
    requires t.WellFormed()
    requires DetectFromCsv(t, model, saveMaliciousCsv, show).Ok?
    ensures var labels := PredictFlows(t, model).value.labels;
            var d := DetectFromCsv(t, model, saveMaliciousCsv, show).value;
            && d.summary.totalFlows == |t.rows|
            && d.summary.maliciousFlows == MaliciousCount(labels)
            && (d.report[0] == NoActivityLine <==> d.summary.maliciousFlows == 0)
            && (d.summary.maliciousFlows > 0 ==>
                  |d.report| == HeaderLines + d.summary.maliciousFlows &&
                  d.report[4] == "Malicious ratio: " + show.ratio(d.summary.maliciousRatio))
            && d.summary.maliciousRatio == Ratio(MaliciousCount(labels), |t.rows|)
            && |d.summary.sampleMaliciousFlows| == Min(SampleSize, MaliciousCount(labels))
            && FlaggedSample(d.summary.sampleMaliciousFlows, t.rows, labels)
            && (d.summary.writesMaliciousCsv <==> saveMaliciousCsv && MaliciousCount(labels) > 0)
            && d.report == Report(|t.rows|, SelectMalicious(PredictFlows(t, model).value.flows, labels), show)
            && (MaliciousCount(labels) == 0 ==> d.report == [NoActivityLine])
            && forall k :: 0 <= k < MaliciousCount(labels) ==>
                 && MaliciousIndices(labels)[k] < |t.rows|
                 && IdColumns <= |t.rows[MaliciousIndices(labels)[k]]|
                 && d.report[HeaderLines + k] ==
                    FlowLine(ToFlowId(t.rows[MaliciousIndices(labels)[k]][..IdColumns]), show)
  {
    var p := PredictFlows(t, model).value;
    var malicious := SelectMalicious(p.flows, p.labels);
    var idx := MaliciousIndices(p.labels);
    var d := DetectFromCsv(t, model, saveMaliciousCsv, show).value;
    assert d.summary == Summarize(|t.rows|, malicious, saveMaliciousCsv);
    assert d.report == Report(|t.rows|, malicious, show);
    PrefixIsFlaggedSample(d.summary.sampleMaliciousFlows, p.flows, t.rows, p.labels);
    forall k | 0 <= k < |malicious|
      ensures idx[k] < |t.rows| && IdColumns <= |t.rows[idx[k]]|
      ensures d.report[HeaderLines + k] == FlowLine(ToFlowId(t.rows[idx[k]][..IdColumns]), show)
    {
      assert malicious[k] == p.flows[idx[k]];
      assert malicious[k] == ToFlowId(t.rows[idx[k]][..IdColumns]);
    }
  }
}
