/** What the relational store's `WHERE`, `ORDER BY id`, `COUNT`, `LIMIT`/`OFFSET` and
    `First` mean over one table, the table being a map from primary key to row. Every key
    of a table lies below its auto-increment counter, so scanning the ids below that
    counter visits the rows in key order. */
module Tables {
  import opened Wrappers

  function Min(a: int, b: int): int {
    if a <= b then a else b
  }

  /** The keys below `bound` whose rows satisfy `where`, in ascending order: the ids a
      `SELECT ... WHERE where ORDER BY id` returns. */
  function KeysWhere<T>(m: map<nat, T>, bound: nat, where: T -> bool): (ks: seq<nat>)
    ensures forall i :: 0 <= i < |ks| ==> ks[i] in m && ks[i] < bound && where(m[ks[i]])
    ensures forall k :: k in m && k < bound && where(m[k]) ==> k in ks
    ensures forall i, j :: 0 <= i < j < |ks| ==> ks[i] < ks[j]
    decreases bound
  {
    if bound == 0 then []
    else
      var k := bound - 1;
      KeysWhere(m, k, where) + (if k in m && where(m[k]) then [k] else [])
  }

  /** The set of keys a filtered query selects, as a set. */
  ghost function KeySet<T>(m: map<nat, T>, bound: nat, where: T -> bool): set<nat> {
    set k | k in m && k < bound && where(m[k])
  }

  /** A filtered `COUNT` agrees with the number of keys the filter selects. */
  lemma {:induction false} KeysWhereCount<T>(m: map<nat, T>, bound: nat, where: T -> bool)
    ensures |KeysWhere(m, bound, where)| == |KeySet(m, bound, where)|
    decreases bound
  {
    if bound > 0 {
      var k := bound - 1;
      KeysWhereCount(m, k, where);
      var before := KeySet(m, k, where);
      if k in m && where(m[k]) {
        assert |KeysWhere(m, bound, where)| == |KeysWhere(m, k, where)| + 1;
        assert k !in before;
        assert KeySet(m, bound, where) == before + {k};
      } else {
        assert KeysWhere(m, bound, where) == KeysWhere(m, k, where);
        assert KeySet(m, bound, where) == before;
      }
    }
  }

  /** A filter that every row passes, over a table whose keys all lie below the
      bound, selects every key. */
  lemma KeysWhereAll<T>(m: map<nat, T>, bound: nat, where: T -> bool)
    requires forall k :: k in m ==> k < bound && where(m[k])
    ensures |KeysWhere(m, bound, where)| == |m|
  {
    KeysWhereCount(m, bound, where);
    assert KeySet(m, bound, where) == m.Keys;
  }

  /** The rows stored under the keys `ks`, in the order of `ks`. */
  function Rows<T>(m: map<nat, T>, ks: seq<nat>): (rs: seq<T>)
    requires forall i :: 0 <= i < |ks| ==> ks[i] in m
    ensures |rs| == |ks|
    ensures forall i :: 0 <= i < |ks| ==> rs[i] == m[ks[i]]
  {
    if ks == [] then [] else [m[ks[0]]] + Rows(m, ks[1..])
  }

  /** The row stored under a selected key is among the selected rows. */
  lemma RowsContain<T>(m: map<nat, T>, ks: seq<nat>, k: nat)
    requires forall i :: 0 <= i < |ks| ==> ks[i] in m
    requires k in ks
    ensures m[k] in Rows(m, ks)
  {
    var i :| 0 <= i < |ks| && ks[i] == k;
    assert Rows(m, ks)[i] == m[k];
  }

  /** `LIMIT limit OFFSET offset`: the rows from position `offset` on, at most `limit`
      of them; nothing when the offset lies past the end. */
  function Page<T>(rows: seq<T>, offset: nat, limit: nat): (p: seq<T>)
    ensures |p| == if offset < |rows| then Min(limit, |rows| - offset) else 0
    ensures forall i :: 0 <= i < |p| ==> p[i] == rows[offset + i]
  {
    if offset >= |rows| then [] else rows[offset .. Min(offset + limit, |rows|)]
  }

  /** `First`: the first row of a result, if there is one. */
  function First<T>(rows: seq<T>): Option<T> {
    if rows == [] then None else Some(rows[0])
  }
}
