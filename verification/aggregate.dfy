/** What every entry point computes from the identifier rows and the
    predictions: the malicious rows (prediction == 1) in input order, their
    count, the malicious ratio and a bounded sample. */
module Aggregate {
  import opened Outcomes
  import opened Frame

  /** The prediction that marks a flow malicious; any other label is benign. */
  const MaliciousLabel := 1

  /** Number of predictions equal to 1 (`(preds == 1).sum()`). */
  function MaliciousCount(labels: seq<int>): (n: nat)
    ensures n <= |labels|
  {
    if |labels| == 0 then 0
    else MaliciousCount(labels[..|labels| - 1]) + (if labels[|labels| - 1] == MaliciousLabel then 1 else 0)
  }

  predicate StrictlyIncreasing(s: seq<nat>) {
    forall k, l :: 0 <= k < l < |s| ==> s[k] < s[l]
  }

  /** The row positions whose prediction is 1: exactly the positions the
      boolean mask `preds == 1` keeps (see MaliciousIndicesExact). */
  function MaliciousIndices(labels: seq<int>): (r: seq<nat>)
    ensures |r| == MaliciousCount(labels)
    ensures forall k :: 0 <= k < |r| ==> r[k] < |labels| && labels[r[k]] == MaliciousLabel
  {
    if |labels| == 0 then []
    else
      var n := |labels| - 1;
      var p := MaliciousIndices(labels[..n]);
      if labels[n] == MaliciousLabel then p + [n] else p
  }

  /** The positions come in increasing order and miss no 1-label: with the
      contract of MaliciousIndices, every position whose prediction is 1
      appears exactly once, in input order. */
  lemma {:induction false} MaliciousIndicesExact(labels: seq<int>)
    ensures StrictlyIncreasing(MaliciousIndices(labels))
    ensures forall i :: 0 <= i < |labels| && labels[i] == MaliciousLabel ==> i in MaliciousIndices(labels)
  {
    if |labels| > 0 {
      var n := |labels| - 1;
      MaliciousIndicesExact(labels[..n]);
      var p := MaliciousIndices(labels[..n]);
      var r := MaliciousIndices(labels);
      assert r == if labels[n] == MaliciousLabel then p + [n] else p;
      forall k, l | 0 <= k < l < |r|
        ensures r[k] < r[l]
      {
        assert r[k] == p[k];
        if l < |p| {
          assert r[l] == p[l];
          assert p[k] < p[l];
        } else {
          assert p[k] < n;
        }
      }
      forall i | 0 <= i < n && labels[i] == MaliciousLabel
        ensures i in MaliciousIndices(labels)
      {
        assert labels[..n][i] == labels[i];
        assert i in p;
      }
    }
  }

  /** The elements of s at the given positions, in the order of the positions. */
  function Gather<T>(s: seq<T>, idx: seq<nat>): (r: seq<T>)
    requires forall k :: 0 <= k < |idx| ==> idx[k] < |s|
    ensures |r| == |idx|
    ensures forall k :: 0 <= k < |idx| ==> r[k] == s[idx[k]]
  {
    seq(|idx|, k requires 0 <= k < |idx| => s[idx[k]])
  }

  /** `flows[preds == 1]`: the rows whose prediction is 1, in their original
      order. The result is the rows at exactly the malicious positions, so its
      length is the malicious count and never exceeds the row count. */
  function SelectMalicious<T>(rows: seq<T>, labels: seq<int>): (r: seq<T>)
    requires |rows| == |labels|
    ensures r == Gather(rows, MaliciousIndices(labels))
    ensures |r| == MaliciousCount(labels) <= |rows|
  {
    if |rows| == 0 then []
    else
      var n := |rows| - 1;
      var p := SelectMalicious(rows[..n], labels[..n]);
      var idx := MaliciousIndices(labels);
      var pidx := MaliciousIndices(labels[..n]);
      var r := if labels[n] == MaliciousLabel then p + [rows[n]] else p;
      assert forall k :: 0 <= k < |pidx| ==> rows[..n][pidx[k]] == rows[pidx[k]];
      assert r == Gather(rows, idx);
      r
  }

  /** `flows[preds == 1]` as pandas evaluates it: a mask whose length differs
      from the row count raises. */
  function MaskRows<T>(rows: seq<T>, labels: seq<int>): (r: Result<seq<T>, Failure>)
    ensures r.Err? <==> |labels| != |rows|
    ensures r.Err? ==> r.error == MaskLengthMismatch
    ensures r.Ok? ==> |rows| == |labels| && r.value == SelectMalicious(rows, labels)
  {
    if |labels| != |rows| then Err(MaskLengthMismatch) else Ok(SelectMalicious(rows, labels))
  }

  /** Ratio of malicious flows, `mal_count / total if total > 0 else 0`, as an
      exact rational instead of a float. */
  function Ratio(malCount: nat, total: nat): (r: real)
    ensures total == 0 ==> r == 0.0
    ensures total > 0 ==> r * (total as real) == malCount as real
    ensures malCount <= total ==> 0.0 <= r <= 1.0
    ensures r == 0.0 <==> (malCount == 0 || total == 0)
  {
    if total > 0 then malCount as real / total as real else 0.0
  }

  /** `DataFrame.head(n)`: the first n rows; a negative n keeps all rows but
      the last -n. */
  function Head<T>(s: seq<T>, n: int): (r: seq<T>)
    ensures r <= s
    ensures n >= 0 ==> |r| == Min(n, |s|)
    ensures n < 0 ==> |r| == Max(0, |s| + n)
  {
    if n >= 0 then s[..Min(n, |s|)] else s[..Max(0, |s| + n)]
  }

  /** With no label equal to 1 nothing is selected, and conversely. */
  lemma {:induction false} NoMaliciousIffZero(labels: seq<int>)
    ensures MaliciousCount(labels) == 0 <==> forall i :: 0 <= i < |labels| ==> labels[i] != MaliciousLabel
  {
    var idx := MaliciousIndices(labels);
    MaliciousIndicesExact(labels);
    if MaliciousCount(labels) > 0 {
      assert labels[idx[0]] == MaliciousLabel;
    }
  }
}
