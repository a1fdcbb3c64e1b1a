/** `array_transpose()`: rows keyed by row key, each a map from column key to
    value, become columns keyed by column key, each a map from row key to
    value. A cell a row does not have becomes null (None). */
module Transpose {
  import opened PhpArray

  /** Every column key of every row, top row first, in row order. */
  function AllColumnKeys<V>(rows: seq<(Key, seq<(Key, V)>)>): seq<Key>
    decreases |rows|
  {
    if rows == [] then [] else Keys(rows[0].1) + AllColumnKeys(rows[1..])
  }

  /** One output column: every row key, in row order, with that row's cell. */
  function Column<V>(rows: seq<(Key, seq<(Key, V)>)>, c: Key): (col: seq<(Key, Option<V>)>)
    ensures Keys(col) == Keys(rows)
  {
    seq(|rows|, r requires 0 <= r < |rows| => (rows[r].0, Get(rows[r].1, c)))
  }

  /** `array_transpose()`: one inner map per column key, without repeats and
      in first-seen order, each keyed by exactly the row keys. */
  function ArrayTranspose<V>(rows: seq<(Key, seq<(Key, V)>)>): (out: seq<(Key, seq<(Key, Option<V>)>)>)
    ensures Keys(out) == Dedup(AllColumnKeys(rows))
    ensures forall i :: 0 <= i < |out| ==> Keys(out[i].1) == Keys(rows)
  {
    var cols := Dedup(AllColumnKeys(rows));
    seq(|cols|, i requires 0 <= i < |cols| => (cols[i], Column(rows, cols[i])))
  }

  lemma {:induction false} AllColumnKeysHas<V>(rows: seq<(Key, seq<(Key, V)>)>, r: nat, k: Key)
    requires r < |rows|
    ensures k in Keys(rows[r].1) ==> k in AllColumnKeys(rows)
    ensures k in AllColumnKeys(rows) ==> exists r' :: 0 <= r' < |rows| && k in Keys(rows[r'].1)
    decreases |rows|
  {
    if r > 0 {
      AllColumnKeysHas(rows[1..], r - 1, k);
      if k in AllColumnKeys(rows) && k !in Keys(rows[0].1) {
        var r' :| 0 <= r' < |rows| - 1 && k in Keys(rows[1..][r'].1);
        assert rows[1..][r'] == rows[r' + 1];
      }
    } else if |rows| > 1 {
      AllColumnKeysHas(rows[1..], 0, k);
      if k in AllColumnKeys(rows) && k !in Keys(rows[0].1) {
        var r' :| 0 <= r' < |rows| - 1 && k in Keys(rows[1..][r'].1);
        assert rows[1..][r'] == rows[r' + 1];
      }
    }
  }

  /** The output is a map with one column per column key that occurs in any
      row, and no other; columns come in first-seen order, scanning the rows
      top to bottom; every column carries exactly the row keys, in row
      order. */
  lemma TransposeShape<V>(rows: seq<(Key, seq<(Key, V)>)>)
    ensures var out := ArrayTranspose(rows);
      && IsMap(out)
      && (forall k :: k in Keys(out) <==> exists r :: 0 <= r < |rows| && k in Keys(rows[r].1))
      && (forall i, j :: 0 <= i < j < |out| ==>
            && out[i].0 in AllColumnKeys(rows) && out[j].0 in AllColumnKeys(rows)
            && FirstIndex(AllColumnKeys(rows), out[i].0) < FirstIndex(AllColumnKeys(rows), out[j].0))
      && (forall i :: 0 <= i < |out| ==> Keys(out[i].1) == Keys(rows))
  {
    var all := AllColumnKeys(rows);
    var out := ArrayTranspose(rows);
    DedupProps(all);
    DedupFirstSeen(all);
    assert Keys(out) == Dedup(all);
    forall k ensures k in Keys(out) <==> exists r :: 0 <= r < |rows| && k in Keys(rows[r].1) {
      if rows != [] {
        AllColumnKeysHas(rows, 0, k);
        if exists r :: 0 <= r < |rows| && k in Keys(rows[r].1) {
          var r :| 0 <= r < |rows| && k in Keys(rows[r].1);
          AllColumnKeysHas(rows, r, k);
        }
      }
    }
  }

  /** out[c][r] is in[r][c] when row r has column c, and null otherwise. */
  lemma TransposeCell<V>(rows: seq<(Key, seq<(Key, V)>)>, r: nat, j: nat)
    requires r < |rows| && j < |rows[r].1| && IsMap(rows[r].1)
    ensures var out := ArrayTranspose(rows);
      var c := rows[r].1[j].0;
      exists i :: 0 <= i < |out| && out[i].0 == c && out[i].1[r] == (rows[r].0, Some(rows[r].1[j].1))
  {
    var c := rows[r].1[j].0;
    var all := AllColumnKeys(rows);
    AllColumnKeysHas(rows, r, c);
    DedupProps(all);
    var cols := Dedup(all);
    var i :| 0 <= i < |cols| && cols[i] == c;
    GetAt(rows[r].1, j);
    assert ArrayTranspose(rows)[i] == (c, Column(rows, c));
  }

  /** A row lacking a column gets null in that column. */
  lemma TransposeMissing<V>(rows: seq<(Key, seq<(Key, V)>)>, i: nat, r: nat)
    requires i < |ArrayTranspose(rows)| && r < |rows|
    requires ArrayTranspose(rows)[i].0 !in Keys(rows[r].1)
    ensures ArrayTranspose(rows)[i].1[r] == (rows[r].0, None)
  {
  }

  /** A single row becomes one column per entry, in the row's order, each a
      one-entry map from the row key to the entry's value. */
  lemma SingleRow<V>(rk: Key, row: seq<(Key, V)>)
    requires IsMap(row)
    ensures ArrayTranspose([(rk, row)]) == seq(|row|, j requires 0 <= j < |row| => (row[j].0, [(rk, Some(row[j].1))]))
  {
    var rows := [(rk, row)];
    assert rows[1..] == [];
    assert AllColumnKeys(rows) == Keys(row) + AllColumnKeys(rows[1..]);
    assert AllColumnKeys(rows) == Keys(row);
    DedupDistinct(Keys(row));
    var out := ArrayTranspose(rows);
    var want := seq(|row|, j requires 0 <= j < |row| => (row[j].0, [(rk, Some(row[j].1))]));
    assert |out| == |want|;
    forall j | 0 <= j < |row| ensures out[j] == want[j] {
      GetAt(row, j);
      assert out[j] == (row[j].0, Column(rows, row[j].0));
      assert Column(rows, row[j].0) == [(rk, Get(row, row[j].0))];
    }
  }

  /** No rows, no columns. */
  lemma TransposeEmpty<V>()
    ensures ArrayTranspose<V>([]) == []
  {
  }
}
