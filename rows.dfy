/** Table-level helpers shared by the three tables (categories, commands, notes).
    A table is a sequence of records in rowid order; `key` projects the column a
    WHERE clause compares. */
module Rows {

  datatype Option<+T> = None | Some(value: T)

  /** Rows carry AUTOINCREMENT ids: every id is at least 1 and below the next id
      to hand out, and ids strictly increase along the table (rowid order). */
  ghost predicate Keyed<T>(rows: seq<T>, id: T -> nat, next: nat)
  {
    && (forall i | 0 <= i < |rows| :: 1 <= id(rows[i]) < next)
    && (forall i, j | 0 <= i < j < |rows| :: id(rows[i]) < id(rows[j]))
  }

  /** Handing out an id without storing a row keeps a table keyed. */
  lemma KeyedRaise<T>(rows: seq<T>, id: T -> nat, next: nat)
    requires Keyed(rows, id, next)
    ensures Keyed(rows, id, next + 1)
  {
  }

  /** `SELECT ... WHERE key = k` followed by `fetchone()`: the index of the first
      row of the scan whose key is `k`. */
  function FirstWhere<T, K(==)>(rows: seq<T>, key: T -> K, k: K): (r: Option<nat>)
    ensures r.Some? ==> r.value < |rows| && key(rows[r.value]) == k
    ensures r.Some? ==> forall i | 0 <= i < r.value :: key(rows[i]) != k
    ensures r.None? <==> forall i | 0 <= i < |rows| :: key(rows[i]) != k
  {
    if rows == [] then None
    else if key(rows[0]) == k then Some(0)
    else match FirstWhere(rows[1..], key, k)
      case None => None
      case Some(i) => Some(i + 1)
  }

  /** `SELECT COUNT(*) ... WHERE key = k`. */
  function CountWhere<T, K(==)>(rows: seq<T>, key: T -> K, k: K): (n: nat)
    ensures n <= |rows|
    ensures n == 0 <==> forall i | 0 <= i < |rows| :: key(rows[i]) != k
  {
    if rows == [] then 0
    else (if key(rows[0]) == k then 1 else 0) + CountWhere(rows[1..], key, k)
  }

  /** `DELETE ... WHERE key = k`: every matching row goes, the others stay in order. */
  function RemoveWhere<T, K(==)>(rows: seq<T>, key: T -> K, k: K): (r: seq<T>)
    ensures |r| == |rows| - CountWhere(rows, key, k)
  {
    if rows == [] then []
    else if key(rows[0]) == k then RemoveWhere(rows[1..], key, k)
    else [rows[0]] + RemoveWhere(rows[1..], key, k)
  }

  /** The survivors of a delete are exactly the rows whose key differs. */
  lemma {:induction false} RemoveWhereSpec<T, K>(rows: seq<T>, key: T -> K, k: K)
    ensures var r := RemoveWhere(rows, key, k);
      && (forall i | 0 <= i < |r| :: r[i] in rows && key(r[i]) != k)
      && (forall i | 0 <= i < |rows| && key(rows[i]) != k :: rows[i] in r)
  {
    if rows != [] {
      var tail := rows[1..];
      RemoveWhereSpec(tail, key, k);
      var rt := RemoveWhere(tail, key, k);
      assert forall x | x in tail :: x in rows;
      forall i | 0 <= i < |rows| && key(rows[i]) != k ensures rows[i] in RemoveWhere(rows, key, k) {
        if i > 0 { assert rows[i] == tail[i - 1]; }
      }
    }
  }

  /** Deleting rows keeps the survivors' ids valid and in rowid order. */
  lemma {:induction false} RemoveKeepsKeyed<T, K>(rows: seq<T>, key: T -> K, k: K, id: T -> nat, next: nat)
    requires Keyed(rows, id, next)
    ensures Keyed(RemoveWhere(rows, key, k), id, next)
  {
    if rows != [] {
      var tail := rows[1..];
      assert Keyed(tail, id, next) by {
        forall i | 0 <= i < |tail| ensures tail[i] == rows[i + 1] { }
      }
      RemoveKeepsKeyed(tail, key, k, id, next);
      var r := RemoveWhere(tail, key, k);
      RemoveWhereSpec(tail, key, k);
      if key(rows[0]) != k {
        forall i | 0 <= i < |r| ensures id(rows[0]) < id(r[i]) {
          var j :| 0 <= j < |tail| && tail[j] == r[i];
          assert rows[j + 1] == r[i];
        }
        ConsKeyed(rows[0], r, id, next);
      }
    }
  }

  /** An insert with the next id keeps the table keyed, one id further on. */
  lemma AppendKeyed<T>(rows: seq<T>, id: T -> nat, next: nat, x: T)
    requires Keyed(rows, id, next) && id(x) == next && next >= 1
    ensures Keyed(rows + [x], id, next + 1)
  {
    var r := rows + [x];
    forall i | 0 <= i < |r| ensures 1 <= id(r[i]) < next + 1 {
      if i < |rows| { assert r[i] == rows[i]; }
    }
    forall i, j | 0 <= i < j < |r| ensures id(r[i]) < id(r[j]) {
      assert r[i] == rows[i];
      if j < |rows| { assert r[j] == rows[j]; }
    }
  }

  lemma ConsKeyed<T>(x: T, r: seq<T>, id: T -> nat, next: nat)
    requires Keyed(r, id, next) && 1 <= id(x) < next
    requires forall i | 0 <= i < |r| :: id(x) < id(r[i])
    ensures Keyed([x] + r, id, next)
  {
    var out := [x] + r;
    forall i, j | 0 <= i < j < |out| ensures id(out[i]) < id(out[j]) {
      assert out[j] == r[j - 1];
      if i > 0 { assert out[i] == r[i - 1]; }
    }
  }

  /** When keys are unique (at most one row matches), a delete by key removes at
      most one row. */
  lemma {:induction false} CountWhereUnique<T, K>(rows: seq<T>, key: T -> K, k: K)
    requires forall i, j | 0 <= i < j < |rows| :: key(rows[i]) != key(rows[j])
    ensures CountWhere(rows, key, k) <= 1
  {
    if rows != [] {
      CountWhereUnique(rows[1..], key, k);
      if key(rows[0]) == k {
        assert forall i | 0 <= i < |rows[1..]| :: key(rows[1..][i]) != k by {
          forall i | 0 <= i < |rows[1..]| ensures key(rows[1..][i]) != k {
            assert rows[1..][i] == rows[i + 1];
          }
        }
      }
    }
  }

  /** Ids are unique along a keyed table, so a delete by the id of row `k`
      removes exactly that row. */
  lemma RemoveById<T>(rows: seq<T>, id: T -> nat, next: nat, k: nat)
    requires Keyed(rows, id, next) && k < |rows|
    ensures RemoveWhere(rows, id, id(rows[k])) == rows[..k] + rows[k + 1..]
  {
    var x := id(rows[k]);
    var before, after := rows[..k], rows[k + 1..];
    calc {
      RemoveWhere(rows, id, x);
      { assert rows == (before + [rows[k]]) + after; }
      RemoveWhere((before + [rows[k]]) + after, id, x);
      { RemoveAppend(before + [rows[k]], after, id, x); }
      RemoveWhere(before + [rows[k]], id, x) + RemoveWhere(after, id, x);
      { RemoveAppend(before, [rows[k]], id, x); }
      RemoveWhere(before, id, x) + RemoveWhere([rows[k]], id, x) + RemoveWhere(after, id, x);
      { OtherIds(rows, id, next, k); }
      before + [] + after;
      { assert before + [] == before; }
      before + after;
    }
  }

  /** The rows before and after row `k` of a keyed table carry other ids, so a
      delete by row `k`'s id leaves them alone. */
  lemma OtherIds<T>(rows: seq<T>, id: T -> nat, next: nat, k: nat)
    requires Keyed(rows, id, next) && k < |rows|
    ensures RemoveWhere(rows[..k], id, id(rows[k])) == rows[..k]
    ensures RemoveWhere(rows[k + 1..], id, id(rows[k])) == rows[k + 1..]
    ensures RemoveWhere([rows[k]], id, id(rows[k])) == []
  {
    var before, after := rows[..k], rows[k + 1..];
    forall i | 0 <= i < |before| ensures id(before[i]) != id(rows[k]) {
      assert before[i] == rows[i];
    }
    forall i | 0 <= i < |after| ensures id(after[i]) != id(rows[k]) {
      assert after[i] == rows[k + 1 + i];
    }
    RemoveNone(before, id, id(rows[k]));
    RemoveNone(after, id, id(rows[k]));
  }

  /** A delete acts on each part of a table separately. */
  lemma {:induction false} RemoveAppend<T, K>(a: seq<T>, b: seq<T>, key: T -> K, k: K)
    ensures RemoveWhere(a + b, key, k) == RemoveWhere(a, key, k) + RemoveWhere(b, key, k)
  {
    if a == [] {
      assert a + b == b;
    } else {
      assert (a + b)[0] == a[0];
      assert (a + b)[1..] == a[1..] + b;
      RemoveAppend(a[1..], b, key, k);
    }
  }

  /** A delete whose key matches no row leaves the table as it was. */
  lemma {:induction false} RemoveNone<T, K>(rows: seq<T>, key: T -> K, k: K)
    requires forall i | 0 <= i < |rows| :: key(rows[i]) != k
    ensures RemoveWhere(rows, key, k) == rows
  {
    if rows != [] {
      assert forall i | 0 <= i < |rows[1..]| :: key(rows[1..][i]) != k by {
        forall i | 0 <= i < |rows[1..]| ensures key(rows[1..][i]) != k {
          assert rows[1..][i] == rows[i + 1];
        }
      }
      RemoveNone(rows[1..], key, k);
      assert rows == [rows[0]] + rows[1..];
    }
  }
}
