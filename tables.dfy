/** Generic facts about tables keyed by integer primary keys. */
module Tables {
  import opened Common

  lemma {:induction false} HasMinimum(s: set<int>)
    requires s != {}
    ensures exists m :: m in s && forall k :: k in s ==> m <= k
    decreases |s|
  {
    assert exists y :: y in s by {
      if forall y :: y !in s { }
    }
    var x :| x in s;
    if s != {x} {
      var rest := s - {x};
      HasMinimum(rest);
      var m :| m in rest && forall k :: k in rest ==> m <= k;
      var least := if x < m then x else m;
      forall k | k in s ensures least <= k {
        if k != x { assert k in rest; }
      }
    } else {
      assert forall k :: k in s ==> x <= k;
    }
  }

  /** The smallest key of a non-empty key set. */
  function Minimum(s: set<int>): (m: int)
    requires s != {}
    ensures m in s && forall k :: k in s ==> m <= k
  {
    HasMinimum(s);
    var m :| m in s && forall k :: k in s ==> m <= k;
    m
  }

  /** The keys of a table in ascending order, each exactly once. */
  function SortedKeys(s: set<int>): (ks: seq<int>)
    ensures |ks| == |s|
    ensures forall k :: k in s <==> k in ks
    ensures forall i, j :: 0 <= i < j < |ks| ==> ks[i] < ks[j]
    decreases |s|
  {
    if s == {} then []
    else
      var m := Minimum(s);
      [m] + SortedKeys(s - {m})
  }

  /** A full scan of a table: its rows in ascending key order. */
  function Rows<T>(m: map<int, T>): (rows: seq<T>)
    ensures |rows| == |m|
  {
    var ks := SortedKeys(m.Keys);
    seq(|ks|, i requires 0 <= i < |ks| => m[ks[i]])
  }

  /**
    When every row carries its own key, a full scan lists every row of the table,
    nothing else, in strictly ascending key order (so each row once).
  */
  lemma RowsAscending<T>(m: map<int, T>, key: T -> int)
    requires forall k :: k in m ==> key(m[k]) == k
    ensures forall v :: v in Rows(m) <==> v in m.Values
    ensures forall i, j :: 0 <= i < j < |Rows(m)| ==> key(Rows(m)[i]) < key(Rows(m)[j])
  {
    var ks := SortedKeys(m.Keys);
    var rows := Rows(m);
    assert forall i :: 0 <= i < |rows| ==> rows[i] == m[ks[i]] && key(rows[i]) == ks[i];
    forall v | v in m.Values
      ensures v in rows
    {
      var k :| k in m && m[k] == v;
      var i :| 0 <= i < |ks| && ks[i] == k;
      assert rows[i] == v;
    }
  }

  /**
    The table after `UPDATE ... WHERE id = key`: the row whose key matches is rewritten,
    every other row is untouched, and no row appears or disappears; a key that is
    absent (or no key at all) matches nothing.
  */
  function UpdateWhere<T>(rows: map<int, T>, key: Option<int>, rewrite: T -> T): (r: map<int, T>)
    ensures r.Keys == rows.Keys
    ensures forall k :: k in rows && key != Some(k) ==> r[k] == rows[k]
    ensures key.Some? && key.value in rows ==> r[key.value] == rewrite(rows[key.value])
  {
    if key.Some? && key.value in rows then rows[key.value := rewrite(rows[key.value])] else rows
  }

  /** An UPDATE that matches no row leaves the table as it was. */
  lemma UpdateWhereNoMatch<T>(rows: map<int, T>, key: Option<int>, rewrite: T -> T)
    requires key.None? || key.value !in rows
    ensures UpdateWhere(rows, key, rewrite) == rows
  {
  }

  /** Running the same UPDATE twice is running it once, when the rewrite is idempotent. */
  lemma UpdateWhereIdempotent<T>(rows: map<int, T>, key: Option<int>, rewrite: T -> T)
    requires forall v :: rewrite(rewrite(v)) == rewrite(v)
    ensures UpdateWhere(UpdateWhere(rows, key, rewrite), key, rewrite) == UpdateWhere(rows, key, rewrite)
  {
  }
}
