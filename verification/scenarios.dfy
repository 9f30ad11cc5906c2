/** Proved scenarios: what the pipeline does on small concrete tables. */
module Scenarios {
  import opened Outcomes
  import opened Frame
  import opened Render
  import opened Aggregate
  import opened Schema
  import Sanitizer
  import Detector
  import FastApi

  const Header := ["src_ip", "src_port", "dst_ip", "dst_port", "protocol", "bytes", "label"]

  function FlowRow(src: string, feature: Cell): Row {
    [Text(src), Num(1000.0), Text("10.0.0.9"), Num(80.0), Num(6.0), feature, Num(0.0)]
  }

  /** Prints every cell the same way; the scenarios do not depend on it. */
  const Plain := Renderer((c: Cell) => "v", (x: real) => "r")

  /** A classifier that flags the rows whose first feature is 0. */
  function FlagZeroFirst(x: seq<seq<real>>): Option<seq<int>> {
    Some(seq(|x|, i requires 0 <= i < |x| => if |x[i]| > 0 && x[i][0] == 0.0 then 1 else 0))
  }

  /** Whatever the table, labels [0, 1, 0] give one malicious flow, ratio
      1/3, and a sample holding exactly the identifiers of row 1. */
  lemma LabelsZeroOneZero(t: Table, model: Classifier, save: bool, show: Renderer)
    requires t.WellFormed()
    requires Detector.DetectFromCsv(t, model, save, show).Ok?
    requires Detector.PredictFlows(t, model).value.labels == [0, 1, 0]
    ensures var s := Detector.DetectFromCsv(t, model, save, show).value.summary;
            && s.totalFlows == 3
            && s.maliciousFlows == 1
            && s.maliciousRatio == 1.0 / 3.0
            && |s.sampleMaliciousFlows| == 1
            && s.sampleMaliciousFlows[0].Cells() == t.rows[1][..IdColumns]
  {
    var labels := [0, 1, 0];
    assert labels[..2][..1] == [0];
    assert MaliciousIndices(labels) == [1];
    Detector.DetectFromCsvFacts(t, model, save, show);
    var s := Detector.DetectFromCsv(t, model, save, show).value.summary;
    assert s.maliciousRatio * 3.0 == 1.0;
  }

  /** Three flows; only the middle one has a first feature of 0. */
  const ThreeRows := Table(Header, [FlowRow("a", Num(5.0)), FlowRow("b", Num(0.0)), FlowRow("c", Num(7.0))])

  /** Scenario: three rows, the middle one flagged. */
  lemma ThreeRowsOneMalicious(t: Table)
    requires t == ThreeRows
    ensures var r := Detector.DetectFromCsv(t, FlagZeroFirst, false, Plain);
            && r.Ok?
            && r.value.summary.maliciousFlows == 1
            && r.value.summary.maliciousRatio == 1.0 / 3.0
            && r.value.summary.sampleMaliciousFlows[0].Cells() == FlowRow("b", Num(0.0))[..IdColumns]
  {
    var labels := FirstFeatureLabels(t);
    assert labels == [0, 1, 0];
    LabelsZeroOneZero(t, FlagZeroFirst, false, Plain);
  }

  /** On a table with header Header and one numeric-or-missing feature per
      row, FlagZeroFirst's labels are decided by the cleaned feature. */
  function FirstFeatureLabels(t: Table): (labels: seq<int>)
    requires t.columns == Header && t.WellFormed()
    requires forall i :: 0 <= i < |t.rows| ==> !t.rows[i][5].Text?
    ensures Detector.PredictFlows(t, FlagZeroFirst).Ok?
    ensures Detector.PredictFlows(t, FlagZeroFirst).value.labels == labels
    ensures |labels| == |t.rows|
    ensures forall i :: 0 <= i < |t.rows| ==>
              labels[i] == (if t.rows[i][5] == Num(0.0) || t.rows[i][5].NaN? || t.rows[i][5].PosInf? ||
                               t.rows[i][5].NegInf? then 1 else 0)
  {
    var split := SplitColumns(t).value;
    assert forall i :: 0 <= i < |t.rows| ==> split.features[i] == [t.rows[i][5]] by {
      forall i | 0 <= i < |t.rows|
        ensures split.features[i] == [t.rows[i][5]]
      {
        var row := t.rows[i];
        assert row == split.flows[i].Cells() + split.features[i] + [row[6]];
        assert row[5] == split.features[i][0];
      }
    }
    var values := Sanitizer.Sanitize(split.features).value;
    FlagZeroFirst(values).value
  }

  /** An infinite feature is cleaned to 0 before the classifier sees it, so a
      classifier keyed on 0 flags that row. */
  lemma InfinityReachesClassifierAsZero()
    ensures var t := Table(Header, [FlowRow("a", PosInf), FlowRow("b", Num(3.0))]);
            var r := Detector.PredictFlows(t, FlagZeroFirst);
            r.Ok? && r.value.labels == [1, 0]
  {
    var t := Table(Header, [FlowRow("a", PosInf), FlowRow("b", Num(3.0))]);
    var labels := FirstFeatureLabels(t);
    assert labels == [1, 0];
  }

  /** A six-column table is rejected before any classifier is consulted. */
  lemma SixColumnsRejected(model: Classifier)
    ensures var t := Table(Header[..6], [FlowRow("a", Num(1.0))[..6]]);
            Detector.DetectFromCsv(t, model, true, Plain) == Err(TooFewColumns)
  {
  }

  /** An upload with a header and no rows is a 400 at the API, while
      detect_from_csv itself has no emptiness check: it hands the empty block
      to the classifier and, if the classifier answers, reports 0 flows. */
  lemma EmptyTable(model: Classifier)
    requires model([]) == Some([])
    ensures FastApi.PredictCsv("flows.csv", Some(Table(Header, [])), FastApi.DefaultLimit, model) == Err(HttpError(400, "Empty CSV."))
    ensures var r := Detector.DetectFromCsv(Table(Header, []), model, true, Plain);
            r.Ok? && r.value.summary.totalFlows == 0 && r.value.summary.maliciousRatio == 0.0 &&
            r.value.report == [Detector.NoActivityLine]
  {
  }

  /** With a classifier that raises on an empty block (as scikit-learn's
      input check does), detect_from_csv fails on a table without rows. */
  lemma EmptyTableClassifierRaises(model: Classifier)
    requires model([]) == None
    ensures Detector.DetectFromCsv(Table(Header, []), model, true, Plain) == Err(ClassifierRaised)
  {
  }
}
