/**
 * The label table: Python's insertion-ordered dict from patch identifier to label,
 * kept as a sequence of entries with distinct keys.
 */
module LabelTable {
  import opened Results

  datatype Entry = Entry(pid: string, annotation: string)

  type Table = seq<Entry>

  function Keys(t: Table): (ks: seq<string>)
    ensures |ks| == |t| && forall i :: 0 <= i < |t| ==> ks[i] == t[i].pid
  {
    seq(|t|, i requires 0 <= i < |t| => t[i].pid)
  }

  /** No key occurs twice, as in a dict. */
  predicate DistinctKeys(t: Table)
  {
    forall i, j :: 0 <= i < j < |t| ==> t[i].pid != t[j].pid
  }

  predicate HasKey(t: Table, k: string)
  {
    exists i :: 0 <= i < |t| && t[i].pid == k
  }

  /** Position of the first entry with key `k`, or -1 when there is none. */
  function IndexOf(t: Table, k: string): (i: int)
    ensures -1 <= i < |t|
    ensures i == -1 <==> !HasKey(t, k)
    ensures i >= 0 ==> t[i].pid == k && forall j :: 0 <= j < i ==> t[j].pid != k
  {
    if t == [] then -1
    else if t[0].pid == k then 0
    else
      var i := IndexOf(t[1..], k);
      assert forall j :: 1 <= j < |t| ==> t[j] == t[1..][j - 1];
      if i == -1 then -1 else i + 1
  }

  /** `d.get(k)`: the label stored under `k`, or `None` when the key is absent. */
  function Get(t: Table, k: string): (r: Option<string>)
    ensures r.None? <==> !HasKey(t, k)
    ensures DistinctKeys(t) ==> forall i :: 0 <= i < |t| && t[i].pid == k ==> r == Some(t[i].annotation)
  {
    var i := IndexOf(t, k);
    if i == -1 then None else Some(t[i].annotation)
  }

  lemma GetAt(t: Table, i: int)
    requires DistinctKeys(t) && 0 <= i < |t|
    ensures Get(t, t[i].pid) == Some(t[i].annotation)
  {
  }

  /**
   * `d[k] = v`: an existing key keeps its place and takes the new value;
   * a new key is appended at the end.
   */
  function Insert(t: Table, k: string, v: string): (r: Table)
    ensures HasKey(t, k) ==> |r| == |t| && forall i :: 0 <= i < |t| ==> r[i].pid == t[i].pid
    ensures !HasKey(t, k) ==> r == t + [Entry(k, v)]
    ensures forall i :: 0 <= i < |t| && t[i].pid != k ==> r[i] == t[i]
    ensures DistinctKeys(t) ==> forall i :: 0 <= i < |r| && r[i].pid == k ==> r[i].annotation == v
    ensures DistinctKeys(t) ==> DistinctKeys(r)
  {
    var i := IndexOf(t, k);
    if i == -1 then t + [Entry(k, v)] else t[i := Entry(k, v)]
  }

  /** Writing to the key at position `i` of a dict with distinct keys changes that entry alone. */
  lemma InsertAt(t: Table, i: int, v: string)
    requires DistinctKeys(t) && 0 <= i < |t|
    ensures Insert(t, t[i].pid, v) == t[i := Entry(t[i].pid, v)]
  {
    var r := Insert(t, t[i].pid, v);
    assert HasKey(t, t[i].pid);
  }

  /**
   * `dict(rows)`, also what pandas' `to_dict()` gives for a key column: rows are inserted
   * in order, so a repeated key keeps its first place and its last label.
   */
  function FromRows(rows: seq<Entry>): (t: Table)
    ensures DistinctKeys(t) && |t| <= |rows|
  {
    if rows == [] then []
    else
      var last := rows[|rows| - 1];
      Insert(FromRows(rows[..|rows| - 1]), last.pid, last.annotation)
  }

  /** Rows whose keys are already distinct load back unchanged: a saved table reloads as it was. */
  lemma {:induction false} FromDistinctRows(rows: seq<Entry>)
    requires DistinctKeys(rows)
    ensures FromRows(rows) == rows
  {
    if rows != [] {
      var init := rows[..|rows| - 1];
      var last := rows[|rows| - 1];
      FromDistinctRows(init);
      assert !HasKey(init, last.pid);
      assert init + [last] == rows;
    }
  }

  lemma HasKeySnoc(t: Table, e: Entry, k: string)
    ensures HasKey(t + [e], k) <==> HasKey(t, k) || e.pid == k
  {
    var u := t + [e];
    if HasKey(u, k) && e.pid != k {
      var i :| 0 <= i < |u| && u[i].pid == k;
      assert t[i] == u[i];
    }
    if HasKey(t, k) {
      var i :| 0 <= i < |t| && t[i].pid == k;
      assert u[i] == t[i];
    }
    if e.pid == k {
      assert u[|t|] == e;
    }
  }

  lemma HasKeyInsert(t: Table, k: string, v: string, key: string)
    ensures HasKey(Insert(t, k, v), key) <==> HasKey(t, key) || key == k
  {
    var r := Insert(t, k, v);
    if HasKey(t, k) {
      if HasKey(r, key) {
        var i :| 0 <= i < |r| && r[i].pid == key;
        assert t[i].pid == key;
      }
      if HasKey(t, key) {
        var i :| 0 <= i < |t| && t[i].pid == key;
        assert r[i].pid == key;
      }
      var i :| 0 <= i < |t| && t[i].pid == k;
      assert r[i].pid == k;
    } else {
      HasKeySnoc(t, Entry(k, v), key);
    }
  }

  /** `IndexOf` on a table with one more entry at its end. */
  lemma IndexOfSnoc(t: Table, e: Entry, k: string)
    ensures HasKey(t, k) ==> IndexOf(t + [e], k) == IndexOf(t, k)
    ensures !HasKey(t, k) && e.pid == k ==> IndexOf(t + [e], k) == |t|
  {
    var u := t + [e];
    HasKeySnoc(t, e, k);
    if HasKey(t, k) || e.pid == k {
      var i := IndexOf(t, k);
      assert forall l :: 0 <= l < |t| ==> u[l] == t[l];
      if HasKey(t, k) {
        assert u[i] == t[i];
      } else {
        assert u[|t|] == e;
      }
    }
  }

  /** Loading rows keeps exactly the keys of the rows: none is lost and none is made up. */
  lemma {:induction false} FromRowsHasKey(rows: seq<Entry>, k: string)
    ensures HasKey(FromRows(rows), k) <==> HasKey(rows, k)
  {
    if rows != [] {
      var init := rows[..|rows| - 1];
      var last := rows[|rows| - 1];
      FromRowsHasKey(init, k);
      HasKeyInsert(FromRows(init), last.pid, last.annotation, k);
      assert init + [last] == rows;
      HasKeySnoc(init, last, k);
    }
  }

  /** A key takes the label of the last row that carries it. */
  lemma {:induction false} FromRowsLastLabel(rows: seq<Entry>, j: int)
    requires 0 <= j < |rows|
    requires forall l :: j < l < |rows| ==> rows[l].pid != rows[j].pid
    ensures Get(FromRows(rows), rows[j].pid) == Some(rows[j].annotation)
  {
    var init := rows[..|rows| - 1];
    var last := rows[|rows| - 1];
    var t := FromRows(init);
    var r := FromRows(rows);
    var k := rows[j].pid;
    HasKeyInsert(t, last.pid, last.annotation, k);
    if j == |rows| - 1 {
      var i :| 0 <= i < |r| && r[i].pid == k;
      assert r[i].annotation == last.annotation;
    } else {
      assert init[j] == rows[j];
      FromRowsLastLabel(init, j);
      var i :| 0 <= i < |t| && t[i].pid == k;
      assert r[i] == t[i];
    }
  }

  /** The keys of the table come in the order of their first rows. */
  lemma {:induction false} FromRowsFirstOrder(rows: seq<Entry>, a: int, b: int)
    requires 0 <= a < b < |FromRows(rows)|
    ensures IndexOf(rows, FromRows(rows)[a].pid) < IndexOf(rows, FromRows(rows)[b].pid)
  {
    var init := rows[..|rows| - 1];
    var last := rows[|rows| - 1];
    var t := FromRows(init);
    var r := FromRows(rows);
    assert init + [last] == rows;
    assert HasKey(t, t[a].pid);
    FromRowsHasKey(init, t[a].pid);
    IndexOfSnoc(init, last, t[a].pid);
    if b < |t| {
      assert r[a].pid == t[a].pid && r[b].pid == t[b].pid;
      FromRowsFirstOrder(init, a, b);
      assert HasKey(t, t[b].pid);
      FromRowsHasKey(init, t[b].pid);
      IndexOfSnoc(init, last, t[b].pid);
    } else {
      assert r[a].pid == t[a].pid && r[b].pid == last.pid && !HasKey(t, last.pid);
      FromRowsHasKey(init, last.pid);
      IndexOfSnoc(init, last, last.pid);
    }
  }

  /** The number of labelled entries (non-empty label) of a table. */
  function CountDone(t: Table): (n: nat)
    ensures n <= |t|
  {
    if t == [] then 0
    else (if t[0].annotation != "" then 1 else 0) + CountDone(t[1..])
  }

  /** Every entry is labelled exactly when the labelled count is the table size. */
  lemma {:induction false} CountDoneFull(t: Table)
    ensures CountDone(t) == |t| <==> forall i :: 0 <= i < |t| ==> t[i].annotation != ""
  {
    if t != [] {
      CountDoneFull(t[1..]);
      assert forall i :: 1 <= i < |t| ==> t[i] == t[1..][i - 1];
    }
  }

  /** No entry is labelled exactly when the labelled count is zero. */
  lemma {:induction false} CountDoneZero(t: Table)
    ensures CountDone(t) == 0 <==> forall i :: 0 <= i < |t| ==> t[i].annotation == ""
  {
    if t != [] {
      CountDoneZero(t[1..]);
      assert forall i :: 1 <= i < |t| ==> t[i] == t[1..][i - 1];
    }
  }

  /** `get_session_indexes`: the pair (labelled entries, all entries). */
  function SessionIndexes(t: Table): (r: (nat, nat))
    ensures r.1 == |t| && r.0 <= r.1
  {
    (CountDone(t), |t|)
  }

  /** A table whose labelled entries stay labelled has at least as many labelled entries. */
  lemma {:induction false} CountDoneMonotone(t: Table, u: Table)
    requires |t| == |u|
    requires forall i :: 0 <= i < |t| ==> t[i].annotation != "" ==> u[i].annotation != ""
    ensures CountDone(t) <= CountDone(u)
  {
    if t != [] {
      assert forall i :: 0 <= i < |t| - 1 ==> t[1..][i] == t[i + 1] && u[1..][i] == u[i + 1];
      CountDoneMonotone(t[1..], u[1..]);
    }
  }

  /** When every row carries the same label, so does every entry, and every key comes from a row. */
  lemma {:induction false} FromUniformRows(rows: seq<Entry>, v: string)
    requires forall j :: 0 <= j < |rows| ==> rows[j].annotation == v
    ensures forall k :: 0 <= k < |FromRows(rows)| ==> FromRows(rows)[k].annotation == v && HasKey(rows, FromRows(rows)[k].pid)
  {
    if rows != [] {
      var init := rows[..|rows| - 1];
      FromUniformRows(init, v);
      var t := FromRows(init);
      var r := FromRows(rows);
      forall k | 0 <= k < |r| ensures r[k].annotation == v && HasKey(rows, r[k].pid) {
        if k < |t| && t[k].pid != rows[|rows| - 1].pid {
          assert r[k] == t[k];
          var j :| 0 <= j < |init| && init[j].pid == t[k].pid;
          assert rows[j] == init[j];
        } else {
          assert r[k].pid == rows[|rows| - 1].pid;
        }
      }
    }
  }
}
