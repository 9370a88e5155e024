/** A database table as the data-access objects see it: a sequence of rows in
    insertion order, identified by an auto-increment primary key. */
module Tables {
  import opened Wrappers
  import opened Seqs

  /** Every key is positive and below `next`, the value the auto-increment
      counter hands out next, and no two rows share a key. */
  ghost predicate KeysOk<T>(rows: seq<T>, key: T -> int, next: int) {
    (forall i :: 0 <= i < |rows| ==> 0 < key(rows[i]) < next) &&
    (forall i, j :: 0 <= i < |rows| && 0 <= j < |rows| && key(rows[i]) == key(rows[j]) ==> i == j)
  }

  /** The rows whose key is `k`. */
  function KeyIs<T>(key: T -> int, k: int): T -> bool {
    r => key(r) == k
  }

  /** The rows whose key is not in `ks`. */
  function KeyNotIn<T>(key: T -> int, ks: set<int>): T -> bool {
    r => key(r) !in ks
  }

  /** The keys of the rows. */
  function KeySet<T>(rows: seq<T>, key: T -> int): (ks: set<int>)
    ensures forall i :: 0 <= i < |rows| ==> key(rows[i]) in ks
    ensures forall k :: k in ks ==> exists i :: 0 <= i < |rows| && key(rows[i]) == k
  {
    set i | 0 <= i < |rows| :: key(rows[i])
  }

  /** DELETE ... WHERE id = k: removes the row with key k, if there is one. */
  function Without<T>(rows: seq<T>, key: T -> int, k: int): seq<T> {
    Filter(rows, KeyNotIn(key, {k}))
  }

  /** UPDATE ... WHERE id = key(row): every row with row's key becomes row. */
  function Replace<T>(rows: seq<T>, key: T -> int, row: T): (r: seq<T>)
    ensures |r| == |rows|
    ensures forall i :: 0 <= i < |r| ==> key(r[i]) == key(rows[i])
  {
    seq(|rows|, i requires 0 <= i < |rows| => if key(rows[i]) == key(row) then row else rows[i])
  }

  /** SELECT ... WHERE id = k: the row with key k, if there is one. */
  function Lookup<T>(rows: seq<T>, key: T -> int, k: int): (r: Option<T>)
    ensures r.Some? ==> r.value in rows && key(r.value) == k
    ensures r.None? <==> forall i :: 0 <= i < |rows| ==> key(rows[i]) != k
  {
    First(rows, KeyIs(key, k))
  }

  lemma KeysOkInsert<T>(rows: seq<T>, key: T -> int, next: int, row: T)
    requires KeysOk(rows, key, next) && key(row) == next && 0 < next
    ensures KeysOk(rows + [row], key, next + 1)
  {
  }

  lemma KeysOkGrow<T>(rows: seq<T>, key: T -> int, next: int, next': int)
    requires KeysOk(rows, key, next) && next <= next'
    ensures KeysOk(rows, key, next')
  {
  }

  lemma KeysOkReplace<T>(rows: seq<T>, key: T -> int, next: int, row: T)
    requires KeysOk(rows, key, next)
    ensures KeysOk(Replace(rows, key, row), key, next)
  {
  }

  lemma KeysOkTail<T>(rows: seq<T>, key: T -> int, next: int)
    requires KeysOk(rows, key, next) && |rows| > 0
    ensures KeysOk(rows[1..], key, next)
    ensures forall i :: 0 <= i < |rows[1..]| ==> key(rows[1..][i]) != key(rows[0])
  {
    var tail := rows[1..];
    forall i, j | 0 <= i < |tail| && 0 <= j < |tail| && key(tail[i]) == key(tail[j])
      ensures i == j
    {
      assert tail[i] == rows[i + 1] && tail[j] == rows[j + 1];
    }
    forall m | 0 <= m < |tail|
      ensures key(tail[m]) != key(rows[0])
    {
      assert rows[m + 1] == tail[m];
    }
  }

  /** Deleting rows keeps the keys in range and distinct. */
  lemma {:induction false} KeysOkFilter<T>(rows: seq<T>, key: T -> int, next: int, p: T -> bool)
    requires KeysOk(rows, key, next)
    ensures KeysOk(Filter(rows, p), key, next)
  {
    if |rows| != 0 {
      var tail := rows[1..];
      KeysOkTail(rows, key, next);
      KeysOkFilter(tail, key, next, p);
      FilterMembers(tail, p);
      var ft := Filter(tail, p);
      if p(rows[0]) {
        var f := Filter(rows, p);
        assert f == [rows[0]] + ft;
        forall i, j | 0 <= i < j < |f|
          ensures key(f[i]) != key(f[j])
        {
          assert f[j] == ft[j - 1] && ft[j - 1] in ft;
          assert ft[j - 1] in tail;
          if i > 0 {
            assert f[i] == ft[i - 1];
          } else {
            assert f[i] == rows[0];
          }
        }
      }
    }
  }

  /** Deleting first the keys in ks and then key k deletes the keys in ks + {k}. */
  lemma WithoutMore<T>(rows: seq<T>, key: T -> int, ks: set<int>, k: int)
    ensures Filter(Filter(rows, KeyNotIn(key, ks)), KeyNotIn(key, {k})) == Filter(rows, KeyNotIn(key, ks + {k}))
  {
    FilterFilter(rows, KeyNotIn(key, ks), KeyNotIn(key, {k}), KeyNotIn(key, ks + {k}));
  }

  /** With distinct keys, deleting by key every row that satisfies p deletes exactly
      the rows that satisfy p. */
  lemma DeleteSelected<T>(rows: seq<T>, key: T -> int, next: int, p: T -> bool)
    requires KeysOk(rows, key, next)
    ensures Filter(rows, KeyNotIn(key, KeySet(Filter(rows, p), key))) == Filter(rows, Not(p))
  {
    var sel := Filter(rows, p);
    FilterMembers(rows, p);
    forall i | 0 <= i < |rows|
      ensures KeyNotIn(key, KeySet(sel, key))(rows[i]) == Not(p)(rows[i])
    {
      var x := rows[i];
      if p(x) {
        assert x in sel;
        var j :| 0 <= j < |sel| && sel[j] == x;
        assert key(sel[j]) in KeySet(sel, key);
      } else {
        forall j | 0 <= j < |sel|
          ensures key(sel[j]) != key(x)
        {
          assert sel[j] in sel;
          assert sel[j] in rows;
          var m :| 0 <= m < |rows| && rows[m] == sel[j];
          assert sel[j] != x;
          assert m != i;
        }
      }
    }
    FilterExt(rows, KeyNotIn(key, KeySet(sel, key)), Not(p));
  }

  /** With distinct keys, deleting by key the first row that satisfies p is
      removing that first match. */
  lemma WithoutFirst<T>(rows: seq<T>, key: T -> int, next: int, p: T -> bool)
    requires KeysOk(rows, key, next)
    requires FirstIndex(rows, p) < |rows|
    ensures Without(rows, key, key(rows[FirstIndex(rows, p)])) == RemoveFirst(rows, p)
  {
    var m := FirstIndex(rows, p);
    assert forall i :: 0 <= i < |rows| && i != m ==> key(rows[i]) != key(rows[m]);
    WithoutOnly(rows, key, m);
  }

  /** Deleting by key the row at m, whose key no other row has, removes that row. */
  lemma WithoutOnly<T>(rows: seq<T>, key: T -> int, m: nat)
    requires m < |rows|
    requires forall i :: 0 <= i < |rows| && i != m ==> key(rows[i]) != key(rows[m])
    ensures Without(rows, key, key(rows[m])) == rows[..m] + rows[m + 1..]
  {
    var before, after := rows[..m], rows[m + 1..];
    var q := KeyNotIn(key, {key(rows[m])});
    assert rows == before + ([rows[m]] + after);
    FilterConcat(before, [rows[m]] + after, q);
    FilterCons(rows[m], after, q);
    assert forall i :: 0 <= i < |before| ==> q(before[i]) by {
      forall i | 0 <= i < |before|
        ensures q(before[i])
      {
        assert before[i] == rows[i];
      }
    }
    FilterAll(before, q);
    assert forall i :: 0 <= i < |after| ==> q(after[i]) by {
      forall i | 0 <= i < |after|
        ensures q(after[i])
      {
        assert after[i] == rows[m + 1 + i];
      }
    }
    FilterAll(after, q);
    assert !q(rows[m]);
  }

  lemma KeySetSnoc<T>(rows: seq<T>, key: T -> int, i: int)
    requires 0 <= i < |rows|
    ensures KeySet(rows[..i + 1], key) == KeySet(rows[..i], key) + {key(rows[i])}
  {
    assert rows[..i + 1] == rows[..i] + [rows[i]];
  }

  /** Deleting by key, one row at a time, the rows of `sel` from `rows`, where `done`
      of them have been deleted so far. */
  lemma DeleteNext<T>(rows: seq<T>, key: T -> int, sel: seq<T>, done: int)
    requires 0 <= done < |sel|
    ensures Without(Filter(rows, KeyNotIn(key, KeySet(sel[..done], key))), key, key(sel[done])) ==
            Filter(rows, KeyNotIn(key, KeySet(sel[..done + 1], key)))
  {
    KeySetSnoc(sel, key, done);
    WithoutMore(rows, key, KeySet(sel[..done], key), key(sel[done]));
  }

  /** Before any delete, nothing is deleted. */
  lemma DeleteNone<T>(rows: seq<T>, key: T -> int, sel: seq<T>)
    ensures Filter(rows, KeyNotIn(key, KeySet(sel[..0], key))) == rows
  {
    assert KeySet(sel[..0], key) == {};
    FilterAll(rows, KeyNotIn(key, {}));
  }

  /** The ids in a list. */
  function IdSet(ids: seq<int>): set<int> {
    set k | k in ids
  }

  /** Updating a row by key keeps the number of rows satisfying p when the new row
      agrees on p with the rows it overwrites. */
  lemma {:induction false} ReplaceCount<T>(rows: seq<T>, key: T -> int, row: T, p: T -> bool)
    requires forall i :: 0 <= i < |rows| && key(rows[i]) == key(row) ==> p(rows[i]) == p(row)
    ensures Count(Replace(rows, key, row), p) == Count(rows, p)
  {
    if |rows| != 0 {
      var r := Replace(rows, key, row);
      assert r == [r[0]] + Replace(rows[1..], key, row);
      assert forall i :: 1 <= i < |rows| ==> rows[i] == rows[1..][i - 1];
      ReplaceCount(rows[1..], key, row, p);
      FilterCons(r[0], Replace(rows[1..], key, row), p);
    }
  }

  /** With distinct keys, writing back a row that is already stored changes nothing. */
  lemma ReplaceSame<T>(rows: seq<T>, key: T -> int, next: int, k: int)
    requires KeysOk(rows, key, next) && 0 <= k < |rows|
    ensures Replace(rows, key, rows[k]) == rows
  {
    var r := Replace(rows, key, rows[k]);
    forall i | 0 <= i < |rows|
      ensures r[i] == rows[i]
    {
      if key(rows[i]) == key(rows[k]) {
        assert i == k;
      }
    }
  }
}
