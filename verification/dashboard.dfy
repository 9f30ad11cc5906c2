/** The metric and table logic of app_streamlit.py's main, after
    predict_flows has returned the flows and their predictions. */
module Dashboard {
  import opened Outcomes
  import opened Frame
  import opened Aggregate
  import opened TopTalkers

  datatype ThreatLevel = Low | Medium | High

  function Rank(l: ThreatLevel): nat {
    match l
    case Low => 0
    case Medium => 1
    case High => 2
  }

  /** `"HIGH" if ratio > 0.1 else "MEDIUM" if ratio > 0.05 else "LOW"` */
  function Level(ratio: real): (l: ThreatLevel)
    ensures l == High <==> ratio > 0.1
    ensures l == Medium <==> 0.05 < ratio <= 0.1
    ensures l == Low <==> ratio <= 0.05
  {
    if ratio > 0.1 then High else if ratio > 0.05 then Medium else Low
  }

  /** A larger ratio never gives a lower threat level. */
  lemma LevelMonotone(a: real, b: real)
    requires a <= b
    ensures Rank(Level(a)) <= Rank(Level(b))
  {
  }

  /** The "Max malicious flows to display" slider: 10 to 1000 in steps of 10. */
  const SliderMin := 10
  const SliderMax := 1000
  const SliderStep := 10

  predicate IsSliderValue(v: int) {
    SliderMin <= v <= SliderMax && (v - SliderMin) % SliderStep == 0
  }

  datatype Metrics = Metrics(total: nat, malicious: nat, benign: int, ratio: real, level: ThreatLevel)

  /** What is shown below the metrics when something was flagged; a top table
      is None when its address column does not exist. */
  datatype Details = Details(
    highThreatWarning: bool,
    shownFlows: seq<Row>,
    topSourceIps: Option<Counts>,
    topDestinationIps: Option<Counts>)

  datatype Screen =
    | ReadFailed
    | EmptyUpload
    | Results(metrics: Metrics, details: Option<Details>)

  /** The four metrics: benign_count = total - mal_count is never negative
      and the two counts add up to the total; the ratio is mal_count/total,
      in [0, 1]; the level is the threat level of that ratio. */
  function ComputeMetrics(total: nat, malCount: nat): (m: Metrics)
    requires malCount <= total
    ensures m.total == total && m.malicious == malCount
    ensures m.benign >= 0 && m.benign + m.malicious == m.total
    ensures 0.0 <= m.ratio <= 1.0
    ensures total > 0 ==> m.ratio * (total as real) == malCount as real
    ensures m.level == Level(m.ratio)
  {
    var ratio := Ratio(malCount, total);
    Metrics(total, malCount, total - malCount, ratio, Level(ratio))
  }

  /** `malicious_flows[name].value_counts().head(10)` when the flows have a
      column called `name`: the top table of that column's cells, so each
      count is the number of malicious rows holding that value there. */
  function TopIfPresent(columns: seq<string>, malicious: seq<Row>, name: string): (r: Option<Counts>)
    requires forall i :: 0 <= i < |malicious| ==> |malicious[i]| == |columns|
    ensures r.Some? <==> name in columns
    ensures r.Some? ==> r.value == TopTable(ColumnCells(malicious, ColumnIndex(columns, name).value))
    ensures r.Some? ==> forall i :: 0 <= i < |r.value| ==>
              r.value[i].1 == Occurrences(ColumnCells(malicious, ColumnIndex(columns, name).value), r.value[i].0)
    ensures r.Some? ==> |r.value| <= TopN && Distinct(KeysOf(r.value)) && NonIncreasing(r.value)
  {
    match ColumnIndex(columns, name)
    case None => None
    case Some(k) =>
      TopTableShape(ColumnCells(malicious, k));
      Some(TopTable(ColumnCells(malicious, k)))
  }

  /** main() from the parsed upload (None when reading failed) to what the
      page shows. `flows` and `labels` are what predict_flows returned for
      that upload: one flow row per input row. A readable, non-empty upload
      whose labels align with the flows reaches the results, with the
      metrics of its row count and malicious count. */
  function Show(upload: Option<Table>, flows: Table, labels: seq<int>, limitDisplay: int): (r: Result<Screen, Failure>)
    requires IsSliderValue(limitDisplay)
    requires flows.WellFormed()
    requires upload.Some? ==> |flows.rows| == |upload.value.rows|
    ensures upload.None? ==> r == Ok(ReadFailed)
    ensures upload.Some? && upload.value.IsEmpty() ==> r == Ok(EmptyUpload)
    ensures r.Err? <==> upload.Some? && !upload.value.IsEmpty() && |labels| != |flows.rows|
    ensures r.Err? ==> r.error == MaskLengthMismatch
    ensures r.Ok? && r.value.Results? ==>
              && upload.Some?
              && r.value.metrics.total == |upload.value.rows| > 0
              && r.value.metrics.malicious == MaliciousCount(labels)
              && (r.value.details.Some? <==> r.value.metrics.malicious > 0)
    ensures upload.Some? && !upload.value.IsEmpty() && |labels| == |flows.rows| ==>
              && r.Ok? && r.value.Results?
              && r.value.metrics == ComputeMetrics(|upload.value.rows|, MaliciousCount(labels))
  {
    if upload.None? then Ok(ReadFailed)
    else if upload.value.IsEmpty() then Ok(EmptyUpload)
    else match MaskRows(flows.rows, labels)
      case Err(e) => Err(e)
      case Ok(malicious) =>
        var metrics := ComputeMetrics(|upload.value.rows|, |malicious|);
        if |malicious| == 0 then Ok(Results(metrics, None))
        else
          assert forall i :: 0 <= i < |malicious| ==> malicious[i] in flows.rows;
          Ok(Results(metrics, Some(Details(
            metrics.ratio > 0.1,
            Head(malicious, limitDisplay),
            TopIfPresent(flows.columns, malicious, "src_ip"),
            TopIfPresent(flows.columns, malicious, "dst_ip")))))
  }

  /** Below the metrics: the warning box is shown exactly when the level is
      HIGH (which needs at least one malicious flow), the table shows the
      first min(limit_display, mal_count) malicious flows in order, and each
      top table exists exactly when its column does, has at most ten
      entries, and is `value_counts().head(10)` of that column over the rows
      labelled 1. */
  lemma ShowDetails(upload: Option<Table>, flows: Table, labels: seq<int>, limitDisplay: int)
    requires IsSliderValue(limitDisplay)
    requires flows.WellFormed()
    requires upload.Some? ==> |flows.rows| == |upload.value.rows|
    requires Show(upload, flows, labels, limitDisplay).Ok?
    requires Show(upload, flows, labels, limitDisplay).value.Results?
    ensures var s := Show(upload, flows, labels, limitDisplay).value;
            s.details.Some? ==>
              && (s.details.value.highThreatWarning <==> s.metrics.level == High)
              && |s.details.value.shownFlows| == Min(limitDisplay, s.metrics.malicious)
              && (forall k :: 0 <= k < |s.details.value.shownFlows| ==>
                    MaliciousIndices(labels)[k] < |flows.rows| &&
                    s.details.value.shownFlows[k] == flows.rows[MaliciousIndices(labels)[k]])
              && (s.details.value.topSourceIps.Some? <==> "src_ip" in flows.columns)
              && (s.details.value.topDestinationIps.Some? <==> "dst_ip" in flows.columns)
              && (s.details.value.topSourceIps.Some? ==> |s.details.value.topSourceIps.value| <= TopN)
              && (s.details.value.topDestinationIps.Some? ==> |s.details.value.topDestinationIps.value| <= TopN)
              && |labels| == |flows.rows|
              && s.details.value.topSourceIps == TopIfPresent(flows.columns, SelectMalicious(flows.rows, labels), "src_ip")
              && s.details.value.topDestinationIps == TopIfPresent(flows.columns, SelectMalicious(flows.rows, labels), "dst_ip")
  {
    var s := Show(upload, flows, labels, limitDisplay).value;
    if s.details.Some? {
      var malicious := SelectMalicious(flows.rows, labels);
      assert s.details.value.shownFlows == Head(malicious, limitDisplay);
      forall k | 0 <= k < |s.details.value.shownFlows|
        ensures MaliciousIndices(labels)[k] < |flows.rows|
        ensures s.details.value.shownFlows[k] == flows.rows[MaliciousIndices(labels)[k]]
      {
        assert s.details.value.shownFlows[k] == malicious[k];
      }
    }
  }

  /** A HIGH level (and so the warning) can only come with malicious flows. */
  lemma HighNeedsMalicious(total: nat, malCount: nat)
    requires malCount <= total
    requires ComputeMetrics(total, malCount).level == High
    ensures malCount > 0
  {
  }
}
