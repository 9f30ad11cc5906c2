/** The positional schema every entry point assumes: columns 0..4 are the
    flow identifiers, columns 5..N-2 the features, column N-1 the label,
    which is never used at inference time. */
module Schema {
  import opened Outcomes
  import opened Frame

  /** Number of identifier columns (src_ip, src_port, dst_ip, dst_port, protocol). */
  const IdColumns := 5

  /** Narrowest table predict_flows accepts: 5 identifiers, 1 feature, 1 label. */
  const MinColumns := 7

  /** The identifier five-tuple of one flow. */
  datatype FlowId = FlowId(src: Cell, sport: Cell, dst: Cell, dport: Cell, proto: Cell) {

    /** The five identifier cells in column order. */
    function Cells(): (r: Row)
      ensures |r| == IdColumns
      ensures r[0] == src && r[1] == sport && r[2] == dst && r[3] == dport && r[4] == proto
    {
      [src, sport, dst, dport, proto]
    }
  }

  /** Reading a five-cell row as a flow identifier loses nothing. */
  function ToFlowId(r: Row): (f: FlowId)
    requires |r| == IdColumns
    ensures f.Cells() == r
  {
    FlowId(r[0], r[1], r[2], r[3], r[4])
  }

  /** The classifier: one label per row of the sanitized feature block, or
      None when the model rejects its input (as sklearn's predict raises on a
      block with no rows or the wrong number of features). Its internals are
      not modelled. */
  type Classifier = seq<seq<real>> -> Option<seq<int>>

  datatype Split = Split(flows: seq<FlowId>, features: seq<Row>)

  /** predict_flows' width check and positional split: `df.iloc[:, 0:5]` and
      `df.iloc[:, 5:-1]`. A table narrower than 7 columns is rejected. Each
      row is exactly its identifiers, then its features, then its label, so
      the label is in neither part, and there is at least one feature. */
  function SplitColumns(t: Table): (r: Result<Split, Failure>)
    requires t.WellFormed()
    ensures r.Err? <==> t.Width() < MinColumns
    ensures r.Err? ==> r.error == TooFewColumns
    ensures r.Ok? ==> |r.value.flows| == |t.rows| && |r.value.features| == |t.rows|
    ensures r.Ok? ==> forall i :: 0 <= i < |t.rows| ==>
              t.rows[i] == r.value.flows[i].Cells() + r.value.features[i] + [t.rows[i][t.Width() - 1]]
    ensures r.Ok? ==> forall i :: 0 <= i < |t.rows| ==> |r.value.features[i]| == t.Width() - 6 >= 1
  {
    if t.Width() < MinColumns then Err(TooFewColumns)
    else
      var w := t.Width();
      SliceBoundsOfWideRow(w);
      var ids := SliceBounds(w, 0, 5);
      var feats := SliceBounds(w, 5, -1);
      var idRows := SelectColumns(t.rows, ids.0, ids.1);
      var flows := seq(|t.rows|, i requires 0 <= i < |t.rows| => ToFlowId(idRows[i]));
      var features := SelectColumns(t.rows, feats.0, feats.1);
      assert forall i :: 0 <= i < |t.rows| ==>
        t.rows[i] == t.rows[i][..5] + t.rows[i][5..w - 1] + [t.rows[i][w - 1]];
      Ok(Split(flows, features))
  }
}
