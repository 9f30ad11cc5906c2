/** `column.value_counts().head(10)`: the most frequent addresses among the
    malicious flows, with their counts. value_counts drops NaN, sorts by count
    descending, and (a modelling choice, since pandas does not promise a tie
    order) keeps tied values in order of first appearance. */
module TopTalkers {
  import opened Frame
  import Aggregate

  /** Number of entries in a top-talker table. */
  const TopN := 10

  /** A frequency table in iteration order: (value, count) pairs. */
  type Counts = seq<(Cell, nat)>

  /** How many cells of the column equal v. */
  function Occurrences(column: seq<Cell>, v: Cell): nat {
    if |column| == 0 then 0
    else (if column[0] == v then 1 else 0) + Occurrences(column[1..], v)
  }

  /** A value occurs a positive number of times exactly when it is in the column. */
  lemma {:induction false} OccurrencesPositive(column: seq<Cell>, v: Cell)
    ensures Occurrences(column, v) > 0 <==> v in column
  {
    if |column| > 0 {
      OccurrencesPositive(column[1..], v);
      assert column == [column[0]] + column[1..];
    }
  }

  predicate Distinct<T(==)>(s: seq<T>) {
    forall i, j :: 0 <= i < j < |s| ==> s[i] != s[j]
  }

  /** Position of the first cell of s equal to v. */
  function FirstIndex(s: seq<Cell>, v: Cell): (k: nat)
    requires v in s
    ensures k < |s| && s[k] == v
    ensures forall j :: 0 <= j < k ==> s[j] != v
  {
    if s[0] == v then 0
    else
      assert v in s[1..] by {
        var j :| 0 <= j < |s| && s[j] == v;
        assert s[1..][j - 1] == v;
      }
      1 + FirstIndex(s[1..], v)
  }

  /** A position holding v with no v before it is the first index of v. */
  lemma FirstIndexUnique(s: seq<Cell>, v: Cell, k: nat)
    requires k < |s| && s[k] == v
    requires forall j :: 0 <= j < k ==> s[j] != v
    ensures FirstIndex(s, v) == k
  {
    var f := FirstIndex(s, v);
    assert !(f < k) && !(k < f);
  }

  /** In a sequence without repeats every element sits at its first index. */
  lemma FirstIndexDistinct(s: seq<Cell>, i: nat)
    requires Distinct(s) && i < |s|
    ensures FirstIndex(s, s[i]) == i
  {
    FirstIndexUnique(s, s[i], i);
  }

  /** A value of s[..n] is first found at the same place in s. */
  lemma FirstIndexPrefix(s: seq<Cell>, n: nat, v: Cell)
    requires n <= |s| && v in s[..n]
    ensures v in s && FirstIndex(s, v) == FirstIndex(s[..n], v)
  {
    var f := FirstIndex(s[..n], v);
    assert s[f] == v;
    FirstIndexUnique(s, v, f);
  }

  /** Counts never increase along the table's iteration order. */
  predicate NonIncreasing(t: Counts) {
    forall i, j :: 0 <= i < j < |t| ==> t[i].1 >= t[j].1
  }

  function KeysOf(t: Counts): (ks: seq<Cell>)
    ensures |ks| == |t|
    ensures forall i :: 0 <= i < |t| ==> ks[i] == t[i].0
  {
    seq(|t|, i requires 0 <= i < |t| => t[i].0)
  }

  /** The distinct non-NaN values of the column in order of first appearance. */
  function DistinctValues(column: seq<Cell>): (keys: seq<Cell>)
    ensures Distinct(keys)
    ensures forall v :: v in keys <==> v in column && v != NaN
    ensures forall a, b :: 0 <= a < b < |keys| ==> FirstIndex(column, keys[a]) < FirstIndex(column, keys[b])
  {
    if |column| == 0 then []
    else
      var n := |column| - 1;
      var p := DistinctValues(column[..n]);
      var last := column[n];
      assert column == column[..n] + [last];
      assert forall a :: 0 <= a < |p| ==> FirstIndex(column, p[a]) == FirstIndex(column[..n], p[a]) by {
        forall a | 0 <= a < |p| {
          FirstIndexPrefix(column, n, p[a]);
        }
      }
      if last == NaN || last in p then p
      else
        assert FirstIndex(column, last) == n by {
          FirstIndexUnique(column, last, n);
        }
        p + [last]
  }

  /** Position of the most frequent key, the earliest one among ties. */
  function MostFrequent(keys: seq<Cell>, column: seq<Cell>): (m: nat)
    requires |keys| > 0
    ensures m < |keys|
    ensures forall j :: 0 <= j < |keys| ==> Occurrences(column, keys[j]) <= Occurrences(column, keys[m])
    ensures forall j :: 0 <= j < m ==> Occurrences(column, keys[j]) < Occurrences(column, keys[m])
  {
    if |keys| == 1 then 0
    else
      var n := |keys| - 1;
      var m := MostFrequent(keys[..n], column);
      if Occurrences(column, keys[n]) > Occurrences(column, keys[m]) then n else m
  }

  /** s without its element at position m. */
  function RemoveAt<T>(s: seq<T>, m: nat): seq<T>
    requires m < |s|
  {
    s[..m] + s[m + 1..]
  }

  lemma RemoveAtFacts<T>(s: seq<T>, m: nat)
    requires m < |s|
    ensures |RemoveAt(s, m)| == |s| - 1
    ensures forall x :: x in RemoveAt(s, m) ==> x in s
    ensures forall x :: x in s ==> x == s[m] || x in RemoveAt(s, m)
    ensures Distinct(s) ==> Distinct(RemoveAt(s, m)) && s[m] !in RemoveAt(s, m)
  {
    var r := RemoveAt(s, m);
    assert forall k :: 0 <= k < m ==> r[k] == s[k];
    assert forall k :: m <= k < |r| ==> r[k] == s[k + 1];
    forall x | x in s
      ensures x == s[m] || x in r
    {
      var k :| 0 <= k < |s| && s[k] == x;
      if k < m {
        assert r[k] == x;
      } else if k > m {
        assert r[k - 1] == x;
      }
    }
  }

  /** Entries with equal counts come in the order in which their keys first
      appear in s. */
  predicate TiesInOrderOf(r: Counts, s: seq<Cell>)
    requires forall i :: 0 <= i < |r| ==> r[i].0 in s
  {
    forall i, j :: 0 <= i < j < |r| && r[i].1 == r[j].1 ==> FirstIndex(s, r[i].0) < FirstIndex(s, r[j].0)
  }

  /** Removing one element of a sequence without repeats keeps the order of
      the others. */
  lemma RemoveAtOrder(s: seq<Cell>, m: nat, x: Cell, y: Cell)
    requires Distinct(s) && m < |s|
    requires x in RemoveAt(s, m) && y in RemoveAt(s, m)
    requires FirstIndex(RemoveAt(s, m), x) < FirstIndex(RemoveAt(s, m), y)
    ensures x in s && y in s && FirstIndex(s, x) < FirstIndex(s, y)
  {
    var rest := RemoveAt(s, m);
    var a := FirstIndex(rest, x);
    var b := FirstIndex(rest, y);
    var a' := if a < m then a else a + 1;
    var b' := if b < m then b else b + 1;
    assert s[a'] == x && s[b'] == y;
    FirstIndexDistinct(s, a');
    FirstIndexDistinct(s, b');
  }

  /** An entry in front of a table keeps tied entries in the order of s when
      every later entry tied with it comes after it in s. */
  lemma ConsTiesInOrder(head: (Cell, nat), tail: Counts, s: seq<Cell>)
    requires head.0 in s && forall l :: 0 <= l < |tail| ==> tail[l].0 in s
    requires forall l :: 0 <= l < |tail| && tail[l].1 == head.1 ==> FirstIndex(s, head.0) < FirstIndex(s, tail[l].0)
    requires TiesInOrderOf(tail, s)
    ensures TiesInOrderOf([head] + tail, s)
  {
    var r := [head] + tail;
    forall i, j | 0 <= i < j < |r| && r[i].1 == r[j].1
      ensures FirstIndex(s, r[i].0) < FirstIndex(s, r[j].0)
    {
      assert r[j] == tail[j - 1];
      if i > 0 {
        assert r[i] == tail[i - 1];
      }
    }
  }

  /** A key other than the most frequent one (the earliest among ties) but
      just as frequent comes after it. */
  lemma TiedAfterMostFrequent(keys: seq<Cell>, column: seq<Cell>, m: nat, y: Cell)
    requires Distinct(keys) && m < |keys|
    requires forall j :: 0 <= j < m ==> Occurrences(column, keys[j]) < Occurrences(column, keys[m])
    requires y in RemoveAt(keys, m) && Occurrences(column, y) == Occurrences(column, keys[m])
    ensures y in keys && m < FirstIndex(keys, y)
  {
    RemoveAtFacts(keys, m);
    var q := FirstIndex(keys, y);
    assert q != m;
  }

  /** Putting the most frequent key (the earliest among ties) in front of the
      sorted remaining keys keeps tied entries in key order. */
  lemma ConsTies(keys: seq<Cell>, column: seq<Cell>, m: nat, tail: Counts)
    requires Distinct(keys) && m < |keys|
    requires forall j :: 0 <= j < m ==> Occurrences(column, keys[j]) < Occurrences(column, keys[m])
    requires forall l :: 0 <= l < |tail| ==>
               tail[l].0 in RemoveAt(keys, m) && tail[l].0 in keys && tail[l].1 == Occurrences(column, tail[l].0)
    requires TiesInOrderOf(tail, RemoveAt(keys, m))
    ensures TiesInOrderOf([(keys[m], Occurrences(column, keys[m]))] + tail, keys)
  {
    var head := (keys[m], Occurrences(column, keys[m]));
    FirstIndexDistinct(keys, m);
    forall l | 0 <= l < |tail| && tail[l].1 == head.1
      ensures FirstIndex(keys, head.0) < FirstIndex(keys, tail[l].0)
    {
      TiedAfterMostFrequent(keys, column, m, tail[l].0);
    }
    forall a, b | 0 <= a < b < |tail| && tail[a].1 == tail[b].1
      ensures FirstIndex(keys, tail[a].0) < FirstIndex(keys, tail[b].0)
    {
      RemoveAtOrder(keys, m, tail[a].0, tail[b].0);
    }
    ConsTiesInOrder(head, tail, keys);
  }

  /** Repeatedly take the most frequent remaining key: a stable sort of the
      keys by count, descending. */
  function SortByCount(keys: seq<Cell>, column: seq<Cell>): (r: Counts)
    ensures |r| == |keys|
    ensures forall i :: 0 <= i < |r| ==> r[i].0 in keys && r[i].1 == Occurrences(column, r[i].0)
    ensures NonIncreasing(r)
    ensures Distinct(keys) ==> TiesInOrderOf(r, keys)
    decreases |keys|
  {
    if |keys| == 0 then []
    else
      var m := MostFrequent(keys, column);
      var rest := RemoveAt(keys, m);
      var tail := SortByCount(rest, column);
      ConsSorted(keys, column, m, tail);
      [(keys[m], Occurrences(column, keys[m]))] + tail
  }

  /** One step of the selection sort: the most frequent key (the earliest
      among ties) in front of the sorted remaining keys keeps the counts
      non-increasing and tied entries in key order. */
  lemma ConsSorted(keys: seq<Cell>, column: seq<Cell>, m: nat, tail: Counts)
    requires m < |keys|
    requires forall j :: 0 <= j < |keys| ==> Occurrences(column, keys[j]) <= Occurrences(column, keys[m])
    requires forall j :: 0 <= j < m ==> Occurrences(column, keys[j]) < Occurrences(column, keys[m])
    requires forall l :: 0 <= l < |tail| ==>
               tail[l].0 in RemoveAt(keys, m) && tail[l].1 == Occurrences(column, tail[l].0)
    requires NonIncreasing(tail)
    requires Distinct(RemoveAt(keys, m)) ==> TiesInOrderOf(tail, RemoveAt(keys, m))
    ensures forall l :: 0 <= l < |tail| ==> tail[l].0 in keys
    ensures NonIncreasing([(keys[m], Occurrences(column, keys[m]))] + tail)
    ensures Distinct(keys) ==> TiesInOrderOf([(keys[m], Occurrences(column, keys[m]))] + tail, keys)
  {
    var head := (keys[m], Occurrences(column, keys[m]));
    RemoveAtFacts(keys, m);
    forall l | 0 <= l < |tail|
      ensures tail[l].1 <= head.1
    {
      var jj :| 0 <= jj < |keys| && keys[jj] == tail[l].0;
    }
    ConsNonIncreasing(head, tail);
    if Distinct(keys) {
      ConsTies(keys, column, m, tail);
    }
  }

  /** Putting an entry that dominates a non-increasing table in front of it
      keeps it non-increasing. */
  lemma ConsNonIncreasing(h: (Cell, nat), tail: Counts)
    requires NonIncreasing(tail)
    requires forall l :: 0 <= l < |tail| ==> tail[l].1 <= h.1
    ensures NonIncreasing([h] + tail)
  {
    var r := [h] + tail;
    forall i, j | 0 <= i < j < |r|
      ensures r[i].1 >= r[j].1
    {
      assert r[j] == tail[j - 1];
      if i > 0 {
        assert r[i] == tail[i - 1];
      }
    }
  }

  lemma ConsDistinct(x: Cell, s: seq<Cell>)
    requires Distinct(s) && x !in s
    ensures Distinct([x] + s)
  {
    var r := [x] + s;
    forall i, j | 0 <= i < j < |r|
      ensures r[i] != r[j]
    {
      assert r[j] == s[j - 1];
      if i > 0 {
        assert r[i] == s[i - 1];
      }
    }
  }

  /** One step of SortByCount: the most frequent key with its count, then the
      remaining keys sorted. */
  lemma SortByCountCons(keys: seq<Cell>, column: seq<Cell>)
    requires |keys| > 0
    ensures var m := MostFrequent(keys, column);
            var tail := SortByCount(RemoveAt(keys, m), column);
            && SortByCount(keys, column) == [(keys[m], Occurrences(column, keys[m]))] + tail
            && KeysOf(SortByCount(keys, column)) == [keys[m]] + KeysOf(tail)
  {
  }

  /** No key is listed twice. */
  lemma {:induction false} SortByCountDistinct(keys: seq<Cell>, column: seq<Cell>)
    requires Distinct(keys)
    ensures Distinct(KeysOf(SortByCount(keys, column)))
    decreases |keys|
  {
    if |keys| > 0 {
      var m := MostFrequent(keys, column);
      var rest := RemoveAt(keys, m);
      assert |rest| < |keys| && Distinct(rest) && keys[m] !in rest by {
        RemoveAtFacts(keys, m);
      }
      var tail := SortByCount(rest, column);
      SortByCountDistinct(rest, column);
      assert keys[m] !in KeysOf(tail) by {
        forall j | 0 <= j < |tail|
          ensures KeysOf(tail)[j] != keys[m]
        {
          assert tail[j].0 in rest;
        }
      }
      ConsDistinct(keys[m], KeysOf(tail));
      SortByCountCons(keys, column);
    }
  }

  /** Every key is listed. */
  lemma {:induction false} SortByCountComplete(keys: seq<Cell>, column: seq<Cell>)
    ensures forall v :: v in keys ==> v in KeysOf(SortByCount(keys, column))
    decreases |keys|
  {
    if |keys| > 0 {
      var m := MostFrequent(keys, column);
      var rest := RemoveAt(keys, m);
      assert |rest| < |keys| by {
        RemoveAtFacts(keys, m);
      }
      SortByCountComplete(rest, column);
      SortByCountCons(keys, column);
      var keysOut := KeysOf(SortByCount(keys, column));
      forall v | v in keys
        ensures v in keysOut
      {
        if v != keys[m] {
          RemoveAtFacts(keys, m);
          assert v in rest;
        }
      }
    }
  }

  /** When the keys come in order of first appearance in the column, ties in
      key order are ties in order of first appearance in the column. */
  lemma TiesFollowKeys(r: Counts, keys: seq<Cell>, column: seq<Cell>)
    requires Distinct(keys)
    requires forall v :: v in keys ==> v in column
    requires forall a, b :: 0 <= a < b < |keys| ==> FirstIndex(column, keys[a]) < FirstIndex(column, keys[b])
    requires forall i :: 0 <= i < |r| ==> r[i].0 in keys
    requires TiesInOrderOf(r, keys)
    ensures TiesInOrderOf(r, column)
  {
    forall i, j | 0 <= i < j < |r| && r[i].1 == r[j].1
      ensures FirstIndex(column, r[i].0) < FirstIndex(column, r[j].0)
    {
      var a := FirstIndex(keys, r[i].0);
      var b := FirstIndex(keys, r[j].0);
      assert a < b;
    }
  }

  /** Sorting keys that list the column's non-NaN values once each, in order
      of first appearance, gives the value_counts table of the column. */
  lemma SortedKeysCount(keys: seq<Cell>, column: seq<Cell>)
    requires Distinct(keys)
    requires forall v :: v in keys <==> v in column && v != NaN
    requires forall a, b :: 0 <= a < b < |keys| ==> FirstIndex(column, keys[a]) < FirstIndex(column, keys[b])
    ensures var r := SortByCount(keys, column);
            && (forall v :: v in KeysOf(r) <==> v in column && v != NaN)
            && Distinct(KeysOf(r))
            && (forall i :: 0 <= i < |r| ==> r[i].0 in column && r[i].1 == Occurrences(column, r[i].0))
            && TiesInOrderOf(r, column)
  {
    var r := SortByCount(keys, column);
    SortByCountDistinct(keys, column);
    SortByCountComplete(keys, column);
    forall v | v in KeysOf(r)
      ensures v in keys
    {
      var i :| 0 <= i < |r| && KeysOf(r)[i] == v;
      assert r[i].0 in keys;
    }
    TiesFollowKeys(r, keys, column);
  }

  /** `value_counts()`: every distinct non-NaN value exactly once with its
      number of occurrences, counts non-increasing, and values with equal
      counts in order of first appearance in the column. */
  function ValueCounts(column: seq<Cell>): (r: Counts)
    ensures forall v :: v in KeysOf(r) <==> v in column && v != NaN
    ensures Distinct(KeysOf(r))
    ensures forall i :: 0 <= i < |r| ==> r[i].0 in column && r[i].1 == Occurrences(column, r[i].0)
    ensures NonIncreasing(r)
    ensures TiesInOrderOf(r, column)
  {
    var keys := DistinctValues(column);
    SortedKeysCount(keys, column);
    SortByCount(keys, column)
  }

  /** A prefix of a table keeps its ties in order. */
  lemma TiesPrefix(r: Counts, s: seq<Cell>, n: nat)
    requires n <= |r| && forall i :: 0 <= i < |r| ==> r[i].0 in s
    requires TiesInOrderOf(r, s)
    ensures forall i :: 0 <= i < n ==> r[..n][i].0 in s
    ensures TiesInOrderOf(r[..n], s)
  {
  }

  /** `value_counts().head(10)` over the column. */
  function TopTable(column: seq<Cell>): (r: Counts)
    ensures r <= ValueCounts(column)
    ensures |r| == Min(TopN, |ValueCounts(column)|)
  {
    Aggregate.Head(ValueCounts(column), TopN)
  }

  lemma TopTablePrefix(column: seq<Cell>)
    ensures TopTable(column) == ValueCounts(column)[..|TopTable(column)|]
    ensures KeysOf(TopTable(column)) == KeysOf(ValueCounts(column))[..|TopTable(column)|]
  {
  }

  /** At most ten entries with distinct keys; each key is a non-NaN value of
      the column paired with its exact number of occurrences; counts never
      increase. */
  lemma TopTableShape(column: seq<Cell>)
    ensures |TopTable(column)| <= TopN
    ensures Distinct(KeysOf(TopTable(column)))
    ensures forall i :: 0 <= i < |TopTable(column)| ==>
              TopTable(column)[i].1 == Occurrences(column, TopTable(column)[i].0) &&
              TopTable(column)[i].0 in column && TopTable(column)[i].0 != NaN
    ensures NonIncreasing(TopTable(column))
    ensures TiesInOrderOf(TopTable(column), column)
  {
    var all := ValueCounts(column);
    var r := TopTable(column);
    TopTablePrefix(column);
    forall i | 0 <= i < |r|
      ensures r[i].0 in column && r[i].0 != NaN
    {
      assert r[i].0 == KeysOf(all)[i];
    }
    TiesPrefix(all, column, |r|);
  }

  /** A value that did not make the table occurs no more often than any
      value that did. */
  lemma TopTableDominates(column: seq<Cell>, v: Cell)
    requires v in column && v != NaN && v !in KeysOf(TopTable(column))
    ensures forall i :: 0 <= i < |TopTable(column)| ==> Occurrences(column, v) <= TopTable(column)[i].1
  {
    var all := ValueCounts(column);
    var r := TopTable(column);
    TopTablePrefix(column);
    var p :| 0 <= p < |all| && KeysOf(all)[p] == v;
    assert |r| <= p;
    forall i | 0 <= i < |r|
      ensures Occurrences(column, v) <= r[i].1
    {
      assert r[i] == all[i];
    }
  }

  /** A table shorter than ten lists every non-NaN value of the column. */
  lemma TopTableComplete(column: seq<Cell>)
    requires |TopTable(column)| < TopN
    ensures forall v :: v in column && v != NaN ==> v in KeysOf(TopTable(column))
  {
    TopTablePrefix(column);
    assert TopTable(column) == ValueCounts(column);
  }

  /** The table is empty exactly when the column holds nothing but NaN, in
      particular when there are no malicious flows at all. */
  lemma TopTableEmptyIff(column: seq<Cell>)
    ensures |TopTable(column)| == 0 <==> forall j :: 0 <= j < |column| ==> column[j] == NaN
  {
    var all := ValueCounts(column);
    var r := TopTable(column);
    if |r| == 0 {
      forall j | 0 <= j < |column|
        ensures column[j] == NaN
      {
        assert column[j] in column;
      }
    } else {
      TopTableShape(column);
      assert r[0].0 in column;
    }
  }
}
