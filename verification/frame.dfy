/** The parsed input table (a dataframe as read from CSV) and the positional
    and by-name column access the pipeline performs on it. */
module Frame {
  import opened Outcomes

  /** One cell as the dataframe holds it after parsing. */
  datatype Cell = Num(x: real) | NaN | PosInf | NegInf | Text(s: string)

  type Row = seq<Cell>

  /** Column names (the CSV header) and rows of cells. */
  datatype Table = Table(columns: seq<string>, rows: seq<Row>) {

    function Width(): nat {
      |columns|
    }

    /** Every row has one cell per column. */
    predicate WellFormed() {
      forall i :: 0 <= i < |rows| ==> |rows[i]| == |columns|
    }

    /** DataFrame.empty: true when either axis has length zero. */
    predicate IsEmpty() {
      |rows| == 0 || |columns| == 0
    }
  }

  function Min(a: int, b: int): int {
    if a <= b then a else b
  }

  function Max(a: int, b: int): int {
    if a <= b then b else a
  }

  /** One end of a Python slice `[start:stop]` over a sequence of length n:
      a negative index counts from the end, and the result is clamped to [0, n]. */
  function SliceIndex(i: int, n: nat): (k: nat)
    ensures k <= n
  {
    if i < 0 then Max(0, n + i) else Min(i, n)
  }

  /** The half-open range [lo, hi) that the Python slice `[start:stop]` selects
      from a sequence of length n (an inverted range selects nothing). */
  function SliceBounds(n: nat, start: int, stop: int): (b: (nat, nat))
    ensures b.0 <= b.1 <= n
  {
    var lo := SliceIndex(start, n);
    var hi := SliceIndex(stop, n);
    (lo, Max(lo, hi))
  }

  /** `[0:5]` and `[5:-1]` on a row of width n: when n >= 7 they are exactly the
      positions 0..4 and 5..n-2, the last position n-1 is in neither, and the
      second range is not empty. */
  lemma SliceBoundsOfWideRow(n: nat)
    requires n >= 7
    ensures SliceBounds(n, 0, 5) == (0, 5)
    ensures SliceBounds(n, 5, -1) == (5, n - 1)
    ensures 5 < n - 1
  {
  }

  /** The same slices on a row narrower than 7 select the first min(5, n)
      positions and an empty feature range. */
  lemma SliceBoundsOfNarrowRow(n: nat)
    requires n < 7
    ensures SliceBounds(n, 0, 5) == (0, Min(5, n))
    ensures SliceBounds(n, 5, -1).0 == SliceBounds(n, 5, -1).1
  {
  }

  /** The cells of columns [lo, hi) of every row. */
  function SelectColumns(rows: seq<Row>, lo: nat, hi: nat): (r: seq<Row>)
    requires lo <= hi
    requires forall i :: 0 <= i < |rows| ==> hi <= |rows[i]|
    ensures |r| == |rows|
    ensures forall i :: 0 <= i < |rows| ==> r[i] == rows[i][lo..hi]
  {
    seq(|rows|, i requires 0 <= i < |rows| => rows[i][lo..hi])
  }

  /** Position of the first column called `name`, as `name in df.columns`
      followed by `df[name]` finds it. */
  function ColumnIndex(names: seq<string>, name: string): (r: Option<nat>)
    ensures r.None? <==> name !in names
    ensures r.Some? ==> r.value < |names| && names[r.value] == name
    ensures r.Some? ==> forall j :: 0 <= j < r.value ==> names[j] != name
  {
    if |names| == 0 then None
    else if names[0] == name then Some(0)
    else match ColumnIndex(names[1..], name)
      case None => None
      case Some(k) => Some(k + 1)
  }

  /** The cells of column k, top to bottom. */
  function ColumnCells(rows: seq<Row>, k: nat): (r: seq<Cell>)
    requires forall i :: 0 <= i < |rows| ==> k < |rows[i]|
    ensures |r| == |rows|
    ensures forall i :: 0 <= i < |rows| ==> r[i] == rows[i][k]
  {
    seq(|rows|, i requires 0 <= i < |rows| => rows[i][k])
  }

  /** The file-name suffix both upload endpoints require. */
  const CsvSuffix := ".csv"

  /** str.endswith: s ends with suffix. */
  predicate EndsWith(s: string, suffix: string) {
    |suffix| <= |s| && s[|s| - |suffix|..] == suffix
  }

  /** A string ends with a suffix exactly when it is some prefix followed by it. */
  lemma EndsWithIffConcat(s: string, suffix: string)
    ensures EndsWith(s, suffix) <==> exists p :: s == p + suffix
  {
    if EndsWith(s, suffix) {
      var p := s[..|s| - |suffix|];
      assert s == p + suffix;
    }
    if exists p :: s == p + suffix {
      var p :| s == p + suffix;
      assert s[|s| - |suffix|..] == suffix;
    }
  }
}
