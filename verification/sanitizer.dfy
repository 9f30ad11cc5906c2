/** clean_dataset: NaN and both infinities become 0, then every cell is cast
    to float; a cell that is not a number makes the cast fail. */
module Sanitizer {
  import opened Outcomes
  import opened Frame

  /** A cell the replacement step turns into 0. */
  predicate IsMissing(c: Cell) {
    c.NaN? || c.PosInf? || c.NegInf?
  }

  function CleanCell(c: Cell): Option<real> {
    match c
    case Num(x) => Some(x)
    case NaN => Some(0.0)
    case PosInf => Some(0.0)
    case NegInf => Some(0.0)
    case Text(_) => None
  }

  /** One row of the feature block; the error is the first text column. */
  function SanitizeRow(row: Row): (r: Result<seq<real>, nat>)
    ensures r.Ok? <==> forall j :: 0 <= j < |row| ==> !row[j].Text?
    ensures r.Ok? ==> |r.value| == |row|
    ensures r.Ok? ==> forall j :: 0 <= j < |row| && row[j].Num? ==> r.value[j] == row[j].x
    ensures r.Ok? ==> forall j :: 0 <= j < |row| && IsMissing(row[j]) ==> r.value[j] == 0.0
    ensures r.Err? ==> r.error < |row| && row[r.error].Text?
  {
    if |row| == 0 then Ok([])
    else match CleanCell(row[0])
      case None => Err(0)
      case Some(v) =>
        match SanitizeRow(row[1..])
        case Err(j) => Err(j + 1)
        case Ok(rest) => Ok([v] + rest)
  }

  /** The whole feature block: the same shape, every NaN/+Inf/-Inf cell 0,
      every number unchanged, and a failure exactly when some cell is text
      (the error names a text cell by row and column). */
  function Sanitize(block: seq<Row>): (r: Result<seq<seq<real>>, (nat, nat)>)
    ensures r.Ok? <==> forall i, j :: 0 <= i < |block| && 0 <= j < |block[i]| ==> !block[i][j].Text?
    ensures r.Ok? ==> |r.value| == |block|
    ensures r.Ok? ==> forall i :: 0 <= i < |block| ==> |r.value[i]| == |block[i]|
    ensures r.Ok? ==> forall i, j :: 0 <= i < |block| && 0 <= j < |block[i]| && block[i][j].Num? ==>
                        r.value[i][j] == block[i][j].x
    ensures r.Ok? ==> forall i, j :: 0 <= i < |block| && 0 <= j < |block[i]| && IsMissing(block[i][j]) ==>
                        r.value[i][j] == 0.0
    ensures r.Err? ==> r.error.0 < |block| && r.error.1 < |block[r.error.0]| && block[r.error.0][r.error.1].Text?
  {
    if |block| == 0 then Ok([])
    else match SanitizeRow(block[0])
      case Err(j) => Err((0, j))
      case Ok(first) =>
        match Sanitize(block[1..])
        case Err(p) => Err((p.0 + 1, p.1))
        case Ok(rest) => Ok([first] + rest)
  }

  /** The float dataframe that astype(float) produces, seen again as cells. */
  function Embed(values: seq<seq<real>>): (b: seq<Row>)
    ensures |b| == |values|
    ensures forall i :: 0 <= i < |values| ==> |b[i]| == |values[i]|
    ensures forall i, j :: 0 <= i < |values| && 0 <= j < |values[i]| ==> b[i][j] == Num(values[i][j])
  {
    seq(|values|, i requires 0 <= i < |values| =>
      seq(|values[i]|, j requires 0 <= j < |values[i]| => Num(values[i][j])))
  }

  /** A block that is already all floats comes back unchanged. */
  lemma {:induction false} SanitizeEmbed(values: seq<seq<real>>)
    ensures Sanitize(Embed(values)) == Ok(values)
  {
    var b := Embed(values);
    var r := Sanitize(b);
    assert r.Ok?;
    assert |r.value| == |values|;
    forall i | 0 <= i < |values|
      ensures r.value[i] == values[i]
    {
      assert |r.value[i]| == |values[i]|;
      forall j | 0 <= j < |values[i]|
        ensures r.value[i][j] == values[i][j]
      {
        assert b[i][j] == Num(values[i][j]);
      }
    }
    assert r.value == values;
  }

  /** clean_dataset is idempotent: cleaning its output again changes nothing. */
  lemma SanitizeIdempotent(block: seq<Row>)
    requires Sanitize(block).Ok?
    ensures Sanitize(Embed(Sanitize(block).value)) == Sanitize(block)
  {
    SanitizeEmbed(Sanitize(block).value);
  }
}
