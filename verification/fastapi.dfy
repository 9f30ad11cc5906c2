/** predict_csv of app_fastapi.py: the upload checks, then predict_flows,
    then the JSON summary with a bounded sample and top-10 address tables. */
module FastApi {
  import opened Outcomes
  import opened Frame
  import opened Aggregate
  import opened Schema
  import opened TopTalkers
  import Detector

  /** Default of the `limit` query parameter. */
  const DefaultLimit := 100

  /** The response body. */
  datatype PredictSummary = PredictSummary(
    totalFlows: nat,
    maliciousFlows: nat,
    maliciousRatio: real,
    returnedFlows: nat,
    maliciousSample: seq<FlowId>,
    topSourceIps: Counts,
    topDestinationIps: Counts)

  /** The cells of identifier column k of each flow. */
  function IdColumn(flows: seq<FlowId>, k: nat): (r: seq<Cell>)
    requires k < IdColumns
    ensures |r| == |flows|
    ensures forall i :: 0 <= i < |flows| ==> r[i] == flows[i].Cells()[k]
  {
    seq(|flows|, i requires 0 <= i < |flows| => flows[i].Cells()[k])
  }

  /** `malicious_flows[name].value_counts().head(10)` if mal_count > 0 else {}:
      with no malicious flows the table is empty and the column is never
      looked up; otherwise a name that is not one of the five identifier
      column headers raises KeyError. */
  function TopByName(t: Table, malicious: seq<FlowId>, name: string): (r: Result<Counts, Failure>)
    requires |t.columns| >= IdColumns
    ensures |malicious| == 0 ==> r == Ok([])
    ensures |malicious| > 0 ==> (r.Err? <==> name !in t.columns[..IdColumns])
    ensures r.Err? ==> r.error == MissingColumn(name)
    ensures r.Ok? ==> |r.value| <= TopN && Distinct(KeysOf(r.value)) && NonIncreasing(r.value)
    ensures r.Ok? && |malicious| > 0 ==>
              exists k :: 0 <= k < IdColumns && t.columns[k] == name && r.value == TopTable(IdColumn(malicious, k))
  {
    if |malicious| == 0 then Ok([])
    else match ColumnIndex(t.columns[..IdColumns], name)
      case None => Err(MissingColumn(name))
      case Some(k) =>
        TopTableShape(IdColumn(malicious, k));
        Ok(TopTable(IdColumn(malicious, k)))
  }

  /** The response built from the table and its malicious flows: total is
      the row count, the ratio is mal_count/total and lies in [0, 1],
      returned_flows is the sample's length, the sample is `head(limit)` of the
      malicious flows (the first min(limit, mal_count), or all but the last
      -limit for a negative limit), and the two top tables are those of the
      src_ip and dst_ip columns of the malicious flows: at most ten distinct
      keys with non-increasing counts, empty when nothing was flagged. It
      fails exactly when something was flagged and one of the two names is
      not an identifier column header, src_ip being looked up first. */
  function Respond(t: Table, malicious: seq<FlowId>, limit: int): (r: Result<PredictSummary, Failure>)
    requires |t.columns| >= IdColumns && 0 < |t.rows| && |malicious| <= |t.rows|
    ensures r.Ok? ==>
              var s := r.value;
              && s.totalFlows == |t.rows|
              && s.maliciousFlows == |malicious|
              && s.maliciousRatio == Ratio(s.maliciousFlows, s.totalFlows)
              && s.returnedFlows == |s.maliciousSample|
              && s.maliciousSample <= malicious
              && (limit >= 0 ==> |s.maliciousSample| == Min(limit, |malicious|))
              && (limit < 0 ==> |s.maliciousSample| == Max(0, |malicious| + limit))
              && |s.topSourceIps| <= TopN && Distinct(KeysOf(s.topSourceIps)) && NonIncreasing(s.topSourceIps)
              && |s.topDestinationIps| <= TopN && Distinct(KeysOf(s.topDestinationIps))
              && NonIncreasing(s.topDestinationIps)
              && (|malicious| == 0 ==> s.topSourceIps == [] && s.topDestinationIps == [])
    ensures r.Err? <==>
              |malicious| > 0 && ("src_ip" !in t.columns[..IdColumns] || "dst_ip" !in t.columns[..IdColumns])
    ensures r.Err? ==>
              r.error == MissingColumn(if "src_ip" !in t.columns[..IdColumns] then "src_ip" else "dst_ip")
    ensures r.Ok? ==> TopByName(t, malicious, "src_ip") == Ok(r.value.topSourceIps)
    ensures r.Ok? ==> TopByName(t, malicious, "dst_ip") == Ok(r.value.topDestinationIps)
  {
    var total := |t.rows|;
    var malCount := |malicious|;
    var sample := Head(malicious, limit);
    var sources := TopByName(t, malicious, "src_ip");
    var dests := TopByName(t, malicious, "dst_ip");
    if sources.Err? then Err(sources.error)
    else if dests.Err? then Err(dests.error)
    else Ok(PredictSummary(total, malCount, Ratio(malCount, total), |sample|, sample, sources.value, dests.value))
  }

  /** The response to the rows flagged by `labels`, when `flows` holds each
      row's identifier cells: it fails exactly when something was flagged
      and src_ip or dst_ip is not an identifier column; on success its
      counts and ratio are those of the labels and its sample is a prefix of
      the flagged rows' identifiers. */
  lemma FlaggedResponse(t: Table, flows: seq<FlowId>, labels: seq<int>, limit: int)
    requires |t.columns| >= IdColumns && 0 < |t.rows|
    requires |flows| == |labels| == |t.rows|
    requires forall i :: 0 <= i < |t.rows| ==> IdColumns <= |t.rows[i]| && flows[i].Cells() == t.rows[i][..IdColumns]
    ensures var r := Respond(t, SelectMalicious(flows, labels), limit);
            && (r.Ok? <==> MaliciousCount(labels) == 0 ||
                           ("src_ip" in t.columns[..IdColumns] && "dst_ip" in t.columns[..IdColumns]))
            && (r.Ok? ==>
                  && r.value.totalFlows == |t.rows|
                  && r.value.maliciousFlows == MaliciousCount(labels)
                  && r.value.maliciousRatio == Ratio(MaliciousCount(labels), |t.rows|)
                  && Detector.FlaggedSample(r.value.maliciousSample, t.rows, labels))
  {
    var r := Respond(t, SelectMalicious(flows, labels), limit);
    if r.Ok? {
      Detector.PrefixIsFlaggedSample(r.value.maliciousSample, flows, t.rows, labels);
    }
  }

  /** predict_csv after its upload checks, on a parsed non-empty table:
      predict_flows (whose width check, cast and classifier call may raise),
      the mask, then the response built from the flagged rows. It succeeds
      exactly when prediction succeeds with one label per row and, if
      something was flagged, src_ip and dst_ip are identifier columns. A
      success counts against the classifier's labels: mal_count is the
      number of labels equal to 1, the ratio is mal_count/total, and the
      k-th sampled flow is the identifier cells of the k-th row predicted
      malicious. */
  function Answer(t: Table, limit: int, model: Classifier): (r: Result<PredictSummary, Failure>)
    requires t.WellFormed() && !t.IsEmpty()
    ensures Detector.PredictFlows(t, model).Err? ==> r == Err(Detector.PredictFlows(t, model).error)
    ensures t.Width() < MinColumns ==> r == Err(TooFewColumns)
    ensures r.Ok? ==> Detector.PredictFlows(t, model).Ok?
    ensures r.Ok? ==>
              var labels := Detector.PredictFlows(t, model).value.labels;
              var s := r.value;
              && |labels| == |t.rows|
              && s.totalFlows == |t.rows|
              && s.maliciousFlows == MaliciousCount(labels)
              && s.maliciousRatio == Ratio(MaliciousCount(labels), |t.rows|)
              && Detector.FlaggedSample(s.maliciousSample, t.rows, labels)
    ensures r.Ok? <==>
              && Detector.PredictFlows(t, model).Ok?
              && |Detector.PredictFlows(t, model).value.labels| == |t.rows|
              && (MaliciousCount(Detector.PredictFlows(t, model).value.labels) == 0 ||
                  ("src_ip" in t.columns[..IdColumns] && "dst_ip" in t.columns[..IdColumns]))
    ensures Detector.PredictFlows(t, model).Ok? ==>
              var p := Detector.PredictFlows(t, model).value;
              && (|p.labels| != |t.rows| ==> r == Err(MaskLengthMismatch))
              && (|p.labels| == |t.rows| ==> r == Respond(t, SelectMalicious(p.flows, p.labels), limit))
  {
    var p :- Detector.PredictFlows(t, model);
    var malicious :- MaskRows(p.flows, p.labels);
    FlaggedResponse(t, p.flows, p.labels, limit);
    Respond(t, malicious, limit)
  }

  /** predict_csv on the uploaded file name and the parse result (None when
      read_csv failed): a 400 for a name not ending in ".csv", then for a
      parse failure, then for an empty table, in that order; otherwise the
      answer for the table. */
  function PredictCsv(filename: string, upload: Option<Table>, limit: int, model: Classifier)
    : (r: Result<PredictSummary, Failure>)
    requires upload.Some? ==> upload.value.WellFormed()
    ensures !EndsWith(filename, CsvSuffix) ==> r == Err(HttpError(400, "Only CSV files are supported."))
    ensures EndsWith(filename, CsvSuffix) && upload.None? ==> r == Err(HttpError(400, "Failed to parse CSV"))
    ensures EndsWith(filename, CsvSuffix) && upload.Some? && upload.value.IsEmpty() ==>
              r == Err(HttpError(400, "Empty CSV."))
    ensures EndsWith(filename, CsvSuffix) && upload.Some? && !upload.value.IsEmpty() ==>
              r == Answer(upload.value, limit, model)
  {
    if !EndsWith(filename, CsvSuffix) then Err(HttpError(400, "Only CSV files are supported."))
    else if upload.None? then Err(HttpError(400, "Failed to parse CSV"))
    else if upload.value.IsEmpty() then Err(HttpError(400, "Empty CSV."))
    else Answer(upload.value, limit, model)
  }
}
