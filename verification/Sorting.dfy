/** Sorting rows by their first component, as `list.sort(key=...)` and
    `sort_unstable_by_key` do. */
module Sorting {
  type Row = (nat, nat)

  predicate SortedByKey(rows: seq<Row>) {
    forall i, j :: 0 <= i < j < |rows| ==> rows[i].0 <= rows[j].0
  }

  predicate StrictlySorted(rows: seq<Row>) {
    forall i, j :: 0 <= i < j < |rows| ==> rows[i].0 < rows[j].0
  }

  predicate DistinctKeys(rows: seq<Row>) {
    forall i, j :: 0 <= i < j < |rows| ==> rows[i].0 != rows[j].0
  }

  /** What every sort by key promises, stable or not. */
  ghost predicate IsSortOf(out: seq<Row>, rows: seq<Row>) {
    SortedByKey(out) && multiset(out) == multiset(rows)
  }

  function Insert(row: Row, rows: seq<Row>): (out: seq<Row>)
    requires SortedByKey(rows)
    ensures IsSortOf(out, [row] + rows)
  {
    if rows == [] || row.0 <= rows[0].0 then
      [row] + rows
    else
      var rest := Insert(row, rows[1..]);
      InsertBehindHead(row, rows, rest);
      [rows[0]] + rest
  }

  lemma InsertBehindHead(row: Row, rows: seq<Row>, rest: seq<Row>)
    requires rows != [] && SortedByKey(rows) && rows[0].0 < row.0
    requires IsSortOf(rest, [row] + rows[1..])
    ensures IsSortOf([rows[0]] + rest, [row] + rows)
  {
    assert rows == [rows[0]] + rows[1..];
    SortKeepsRows(rest, [row] + rows[1..]);
    forall i | 0 <= i < |rest| ensures rows[0].0 <= rest[i].0 {
      assert rest[i] in [row] + rows[1..];
    }
  }

  /** The stable sort. */
  function SortByKey(rows: seq<Row>): (out: seq<Row>)
    ensures IsSortOf(out, rows)
  {
    if rows == [] then []
    else
      assert rows == [rows[0]] + rows[1..];
      Insert(rows[0], SortByKey(rows[1..]))
  }

  lemma SortKeepsRows(out: seq<Row>, rows: seq<Row>)
    requires multiset(out) == multiset(rows)
    ensures |out| == |rows|
    ensures forall r :: r in out <==> r in rows
  {
    assert |multiset(out)| == |multiset(rows)|;
    forall r ensures r in out <==> r in rows {
      assert r in out <==> r in multiset(out);
      assert r in rows <==> r in multiset(rows);
    }
  }

  lemma TwiceInMultiset(rows: seq<Row>, i: nat, j: nat)
    requires i < j < |rows| && rows[i] == rows[j]
    ensures multiset(rows)[rows[i]] >= 2
  {
    var a, b := rows[..i + 1], rows[i + 1..];
    assert rows == a + b;
    assert rows[i] in a && rows[j] == b[j - i - 1];
    assert rows[i] in multiset(a) && rows[i] in multiset(b);
  }

  lemma {:induction false} OnceInMultiset(rows: seq<Row>, r: Row)
    requires DistinctKeys(rows)
    ensures multiset(rows)[r] <= 1
  {
    if rows != [] {
      OnceInMultiset(rows[1..], r);
      assert rows == [rows[0]] + rows[1..];
      if rows[0] == r { assert r !in rows[1..]; }
    }
  }

  /** Rows with distinct keys sort to a strictly ascending table. */
  lemma DistinctSortsStrictly(out: seq<Row>, rows: seq<Row>)
    requires IsSortOf(out, rows) && DistinctKeys(rows)
    ensures StrictlySorted(out)
  {
    SortKeepsRows(out, rows);
    forall i, j | 0 <= i < j < |out| ensures out[i].0 < out[j].0 {
      assert out[i] in rows && out[j] in rows;
      if out[i].0 == out[j].0 {
        assert out[i] == out[j];
        TwiceInMultiset(out, i, j);
        OnceInMultiset(rows, out[i]);
      }
    }
  }
}
